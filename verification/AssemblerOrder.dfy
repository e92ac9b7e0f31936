/** Which chunks the assembler completes: two families of arrival orders on which the table,
    with its late drops and evictions, computes a function of the arrivals alone. */
module AssemblerOrder {
  import opened Lists
  import opened Packets
  import opened Assembler
  import opened AssemblerCounts

  // ---- The reference: complete chunks by counting ----

  /** The chunk an arrival completes, if any. */
  function Completing(c: Config, h: seq<Packet>, p: Packet): seq<nat>
  {
    if Count(h, p.csn) == c.data - 1 then [p.csn] else []
  }

  /** The chunks that reached data arrivals, in the order in which they did. */
  function Completed(c: Config, h: seq<Packet>): (s: seq<nat>)
  {
    if h == [] then [] else Completed(c, Front(h)) + Completing(c, Front(h), Last(h))
  }

  /** The packets of one chunk, each at its number. */
  function Gathered(c: Config, h: seq<Packet>, csn: nat): (v: Vector)
    ensures |v| == c.total
  {
    if h == [] then NoSlots(c.total)
    else
      var v := Gathered(c, Front(h), csn);
      if Last(h).csn == csn && Last(h).psn < c.total then v[Last(h).psn := Some(Last(h))] else v
  }

  /** The arrivals up to the data-th one of a chunk. */
  function Cut(c: Config, h: seq<Packet>, csn: nat): (g: seq<Packet>)
    ensures g <= h
  {
    if h == [] then []
    else if Count(Front(h), csn) >= c.data then Cut(c, Front(h), csn) else h
  }

  /** The vector a complete chunk is pushed as: its first data packets. */
  function FirstVector(c: Config, h: seq<Packet>, csn: nat): Vector
  {
    Gathered(c, Cut(c, h, csn), csn)
  }

  function Expected(c: Config, h: seq<Packet>): (out: seq<Vector>)
    ensures |out| == |Completed(c, h)|
  {
    var s := Completed(c, h);
    seq(|s|, i requires 0 <= i < |s| => FirstVector(c, h, s[i]))
  }

  /** Complete chunks are exactly those with data arrivals, each listed once. */
  lemma {:induction false} CompletedExact(c: Config, h: seq<Packet>)
    requires c.data >= 1
    ensures forall e: nat :: e in Completed(c, h) <==> Count(h, e) >= c.data
    ensures forall i, j :: 0 <= i < j < |Completed(c, h)| ==> Completed(c, h)[i] != Completed(c, h)[j]
  {
    if h != [] {
      CompletedExact(c, Front(h));
    }
  }

  /** The cut of a complete chunk holds exactly data arrivals of it. */
  lemma {:induction false} CutCount(c: Config, h: seq<Packet>, csn: nat)
    requires c.data >= 1 && Count(h, csn) >= c.data
    ensures Count(Cut(c, h, csn), csn) == c.data
  {
    if Count(Front(h), csn) >= c.data {
      CutCount(c, Front(h), csn);
    }
  }

  lemma ExpectedSnoc(c: Config, h: seq<Packet>, p: Packet)
    requires c.data >= 1
    ensures Expected(c, h + [p]) == Expected(c, h) +
      (if Count(h, p.csn) == c.data - 1 then [Gathered(c, h + [p], p.csn)] else [])
  {
    var g := h + [p];
    assert Front(g) == h;
    CompletedExact(c, h);
    forall i | 0 <= i < |Completed(c, h)| ensures Expected(c, g)[i] == Expected(c, h)[i] {
      assert Completed(c, h)[i] in Completed(c, h);
    }
  }

  /** Gathering keeps to one chunk and to the arrivals. */
  lemma {:induction false} GatheredFrom(c: Config, h: seq<Packet>, csn: nat)
    ensures PureVector(Gathered(c, h, csn), csn)
    ensures forall s :: 0 <= s < c.total && Gathered(c, h, csn)[s].Some? ==> Gathered(c, h, csn)[s].value in h
  {
    if h != [] {
      GatheredFrom(c, Front(h), csn);
      assert h == Front(h) + [Last(h)];
    }
  }

  /** Without duplicates nothing is overwritten. */
  lemma {:induction false} GatheredCount(c: Config, h: seq<Packet>, csn: nat)
    requires InBounds(c, h) && Distinct(h)
    ensures CountSome(Gathered(c, h, csn)) == Count(h, csn)
  {
    if h == [] {
      CountSomeNone(NoSlots(c.total));
    } else {
      var (g, p) := (Front(h), Last(h));
      var v := Gathered(c, g, csn);
      assert h == g + [p];
      GatheredCount(c, g, csn);
      GatheredFrom(c, g, csn);
      CountSomeUpdate(v, p.psn, Some(p));
      forall i | 0 <= i < |g| ensures g[i].csn != p.csn || g[i].psn != p.psn {
        assert h[i] == g[i] && h[|g|] == p;
      }
    }
  }

  /** A complete chunk is pushed as exactly data of its arrivals, each at its packet number. */
  lemma FirstVectorIs(c: Config, h: seq<Packet>, csn: nat)
    requires c.data >= 1 && InBounds(c, h) && Distinct(h) && Count(h, csn) >= c.data
    ensures var v := FirstVector(c, h, csn);
      && |v| == c.total && PureVector(v, csn) && CountSome(v) == c.data
      && forall s :: 0 <= s < |v| && v[s].Some? ==> v[s].value in h
  {
    hide Gathered, Cut, Count;
    var g := Cut(c, h, csn);
    assert forall x :: x in g ==> x in h;
    CutCount(c, h, csn);
    GatheredCount(c, g, csn);
    GatheredFrom(c, g, csn);
  }

  lemma GatheredNone(c: Config, h: seq<Packet>, csn: nat)
    requires Count(h, csn) == 0
    ensures Gathered(c, h, csn) == NoSlots(c.total)
  {
    if h != [] { GatheredNone(c, Front(h), csn); }
  }

  // ---- What the table holds for a chunk that is still open ----

  ghost predicate Open(c: Config, h: seq<Packet>, csn: nat) { 0 < Count(h, csn) < c.data }

  function OpenRow(c: Config, h: seq<Packet>, csn: nat): Row
  {
    Row(Count(h, csn), csn, Gathered(c, h, csn))
  }

  // ---- Arrivals in csn order ----

  ghost predicate Nondecreasing(h: seq<Packet>) {
    forall i, j :: 0 <= i <= j < |h| ==> 1 <= h[i].csn <= h[j].csn
  }

  /** The table on ordered arrivals: the newest chunk is open in its line, or complete and
      equal to last; every other line is empty or stale. */
  ghost predicate NewestLine(c: Config, h: seq<Packet>, t: Table)
    requires ValidConfig(c) && Shaped(c, t.rows)
  {
    var newest := if h == [] then 0 else Last(h).csn;
    && t.last <= newest
    && (forall k :: 0 <= k < c.lines ==> t.rows[k].csn <= newest)
    && (forall k :: 0 <= k < c.lines && t.rows[k].found == 0 ==> t.rows[k] == EmptyRow(c))
    && (h != [] && Open(c, h, newest) ==> t.last < newest && t.rows[newest % c.lines] == OpenRow(c, h, newest))
    && (h != [] && Count(h, newest) >= c.data ==> t.last == newest)
  }

  lemma NewestLineStep(c: Config, h: seq<Packet>, p: Packet, t: Table)
    requires ValidConfig(c) && c.data >= 2 && Shaped(c, t.rows) && NewestLine(c, h, t)
    requires Nondecreasing(h + [p]) && p.psn < c.total
    ensures var (t', out) := Step(c, t, p);
      NewestLine(c, h + [p], t') &&
      out == if Count(h, p.csn) == c.data - 1 then [Gathered(c, h + [p], p.csn)] else []
  {
    var g := h + [p];
    var newest := if h == [] then 0 else Last(h).csn;
    assert Front(g) == h && Last(g) == p;
    if h != [] { assert g[|h| - 1].csn <= g[|h|].csn; }
    assert 1 <= g[|h|].csn;
    CountSnoc(h, p, p.csn);
    if p.csn > newest {
      forall i | 0 <= i < |h| ensures h[i].csn != p.csn {
        assert g[i].csn <= g[|h| - 1].csn == newest;
      }
      CountZero(h, p.csn);
      GatheredNone(c, h, p.csn);
    }
  }

  /** On arrivals in csn order the assembler pushes exactly the chunks with at least data
      arrivals, each as its first data packets, although it evicts stale lines and last goes back. */
  lemma {:induction false} OrderedArrivals(c: Config, h: seq<Packet>)
    requires ValidConfig(c) && c.data >= 2 && InBounds(c, h) && Nondecreasing(h)
    ensures Run(c, h).1 == Expected(c, h) && PushOrder(c, h) == Completed(c, h)
    ensures NewestLine(c, h, Run(c, h).0)
  {
    if h != [] {
      var (g, p) := (Front(h), Last(h));
      assert h == g + [p];
      OrderedArrivals(c, g);
      hide Step, NewestLine, Gathered, Expected, InBounds, Completed, PushOrder;
      PushOrderNext(c, h);
      CompletedNext(c, h);
      NewestLineStep(c, g, p, Run(c, g).0);
      RunSnoc(c, g, p);
      ExpectedSnoc(c, g, p);
    }
  }

  /** Creating a line does not test for completion, so with one data shard no chunk is pushed as its
      first packet: on every duplicate-free run in csn order the assembler does what counting says
      if and only if there are two or more. */
  lemma ExactFromTwo(c: Config, h: seq<Packet>)
    requires ValidConfig(c) && InBounds(c, h) && Distinct(h) && Nondecreasing(h) && h != []
    ensures Run(c, h).1 == Expected(c, h) <==> c.data >= 2
  {
    if c.data >= 2 {
      OrderedArrivals(c, h);
    } else {
      var csn := h[0].csn;
      CountZero(h, csn);
      CompletedExact(c, h);
      var i :| 0 <= i < |Completed(c, h)| && Completed(c, h)[i] == csn;
      FirstVectorIs(c, h, csn);
      RunExact(c, h);
      var v := Expected(c, h)[i];
      assert v == FirstVector(c, h, csn) && v in Expected(c, h);
    }
  }

  ghost predicate Ascending(s: seq<nat>) {
    forall i, j :: 0 <= i < j < |s| ==> s[i] < s[j]
  }

  lemma AscendingSnoc(s: seq<nat>, e: nat)
    requires Ascending(s) && forall x :: x in s ==> x < e
    ensures Ascending(s + [e])
  {
    forall i | 0 <= i < |s| ensures s[i] < e { assert s[i] in s; }
  }

  lemma {:induction false} CompletedBelow(c: Config, h: seq<Packet>)
    requires c.data >= 1 && Nondecreasing(h)
    ensures forall e :: e in Completed(c, h) ==> h != [] && e <= Last(h).csn
  {
    if h != [] {
      var g := Front(h);
      if g != [] { assert h[|g| - 1].csn <= h[|g|].csn; }
      CompletedBelow(c, g);
    }
  }

  /** On such arrivals the pushed chunks come in strictly increasing csn order. */
  lemma {:induction false} CompletedAscending(c: Config, h: seq<Packet>)
    requires c.data >= 1 && Nondecreasing(h)
    ensures Ascending(Completed(c, h))
  {
    if h != [] {
      var (g, p) := (Front(h), Last(h));
      if g != [] { assert h[|g| - 1].csn <= h[|g|].csn; }
      CompletedAscending(c, g);
      CompletedBelow(c, g);
      CompletedExact(c, g);
      if Count(g, p.csn) == c.data - 1 {
        AscendingSnoc(Completed(c, g), p.csn);
      }
    }
  }

  // ---- Arrivals that complete chunks in csn order ----

  /** No other open chunk uses the line of this one. */
  ghost predicate LineFree(c: Config, h: seq<Packet>, csn: nat)
    requires ValidConfig(c)
  {
    forall e: nat :: Open(c, h, e) && e % c.lines == csn % c.lines ==> e == csn
  }

  /** A packet may arrive after the others when its chunk is complete already, or no other open chunk
      uses its line; and a chunk completes only after all lower ones. Packets of different chunks may
      otherwise be mixed freely. */
  ghost predicate InTurn(c: Config, h: seq<Packet>, p: Packet)
    requires ValidConfig(c)
  {
    && 1 <= p.csn && p.psn < c.total
    && (Count(h, p.csn) < c.data ==> LineFree(c, h, p.csn))
    && (Count(h, p.csn) == c.data - 1 ==> forall e: nat :: 1 <= e < p.csn ==> Count(h, e) >= c.data)
  }

  ghost predicate AllInTurn(c: Config, h: seq<Packet>)
    requires ValidConfig(c)
  {
    h == [] || (AllInTurn(c, Front(h)) && InTurn(c, Front(h), Last(h)))
  }

  ghost predicate OwnedLine(c: Config, h: seq<Packet>, row: Row, k: nat)
    requires ValidConfig(c)
  {
    Open(c, h, row.csn) && row.csn % c.lines == k
  }

  /** The table then holds exactly the open chunks, and last is the number of complete ones. */
  ghost predicate OpenLines(c: Config, h: seq<Packet>, t: Table)
    requires ValidConfig(c) && Shaped(c, t.rows)
  {
    && (forall e: nat :: Count(h, e) >= c.data <==> 1 <= e <= t.last)
    && (forall e: nat :: Open(c, h, e) ==> t.rows[e % c.lines] == OpenRow(c, h, e))
    && (forall k :: 0 <= k < c.lines ==> t.rows[k] == EmptyRow(c) || OwnedLine(c, h, t.rows[k], k))
  }

  lemma OtherChunk(c: Config, h: seq<Packet>, p: Packet, e: nat)
    requires e != p.csn
    ensures Count(h + [p], e) == Count(h, e) && OpenRow(c, h + [p], e) == OpenRow(c, h, e)
  {
    assert Front(h + [p]) == h;
  }

  /** Only the line of the arriving packet changes. */
  lemma LinesKept(c: Config, h: seq<Packet>, p: Packet, t: Table, t': Table)
    requires ValidConfig(c) && Shaped(c, t.rows) && Shaped(c, t'.rows) && OpenLines(c, h, t)
    requires forall e: nat :: Count(h + [p], e) >= c.data <==> 1 <= e <= t'.last
    requires LineFree(c, h, p.csn)
    requires t'.rows == t.rows[p.csn % c.lines :=
      if Open(c, h + [p], p.csn) then OpenRow(c, h + [p], p.csn) else EmptyRow(c)]
    ensures OpenLines(c, h + [p], t')
  {
    forall e: nat | Open(c, h + [p], e) ensures t'.rows[e % c.lines] == OpenRow(c, h + [p], e) {
      if e != p.csn {
        OtherChunk(c, h, p, e);
        assert Open(c, h, e);
      }
    }
    forall j | 0 <= j < c.lines
      ensures t'.rows[j] == EmptyRow(c) || OwnedLine(c, h + [p], t'.rows[j], j)
    {
      if j != p.csn % c.lines && t.rows[j] != EmptyRow(c) {
        assert OwnedLine(c, h, t.rows[j], j);
        OtherChunk(c, h, p, t.rows[j].csn);
      }
    }
  }

  lemma CompleteSet(c: Config, h: seq<Packet>, p: Packet, last: nat)
    requires c.data >= 2
    requires forall e: nat :: Count(h, e) >= c.data <==> 1 <= e <= last
    requires Count(h, p.csn) == c.data - 1 ==> p.csn == last + 1
    ensures forall e: nat :: Count(h + [p], e) >= c.data <==>
      1 <= e <= if Count(h, p.csn) == c.data - 1 then last + 1 else last
  {
    forall e: nat ensures Count(h + [p], e) == Count(h, e) + if e == p.csn then 1 else 0 { CountSnoc(h, p, e); }
  }

  /** A packet of a complete chunk is dropped. */
  lemma LatePacket(c: Config, h: seq<Packet>, p: Packet, t: Table)
    requires ValidConfig(c) && c.data >= 2 && Shaped(c, t.rows) && OpenLines(c, h, t)
    requires Count(h, p.csn) >= c.data
    ensures Step(c, t, p) == (t, []) && OpenLines(c, h + [p], t)
  {
    CompleteSet(c, h, p, t.last);
    forall e: nat | Open(c, h + [p], e) ensures t.rows[e % c.lines] == OpenRow(c, h + [p], e) {
      CountSnoc(h, p, p.csn);
      OtherChunk(c, h, p, e);
      assert Open(c, h, e);
    }
    forall k | 0 <= k < c.lines ensures t.rows[k] == EmptyRow(c) || OwnedLine(c, h + [p], t.rows[k], k) {
      if t.rows[k] != EmptyRow(c) {
        assert OwnedLine(c, h, t.rows[k], k);
        OtherChunk(c, h, p, t.rows[k].csn);
      }
    }
  }

  /** What the arriving packet finds in its line. */
  lemma OwnLine(c: Config, h: seq<Packet>, p: Packet, t: Table)
    requires ValidConfig(c) && c.data >= 2 && Shaped(c, t.rows) && OpenLines(c, h, t) && InTurn(c, h, p)
    requires Count(h, p.csn) < c.data
    ensures p.csn > t.last && OwnRow(c, h, t, p.csn)
    ensures Count(h, p.csn) == c.data - 1 ==> p.csn == t.last + 1
  {
    var k := p.csn % c.lines;
    assert Count(h, p.csn) >= c.data <==> 1 <= p.csn <= t.last;
    assert t.rows[k] == EmptyRow(c) || OwnedLine(c, h, t.rows[k], k);
    assert Count(h, p.csn) > 0 ==> Open(c, h, p.csn);
    assert Count(h, p.csn) == c.data - 1 ==> !(Count(h, t.last + 1) >= c.data);
  }

  /** A packet opens an empty line. */
  lemma OpensLine(c: Config, t: Table, p: Packet)
    requires ValidConfig(c) && Shaped(c, t.rows) && p.csn > t.last && p.psn < c.total
    requires t.rows[p.csn % c.lines] == EmptyRow(c)
    ensures var k := p.csn % c.lines;
      Step(c, t, p) == (Table(t.rows[k := Row(1, p.csn, NoSlots(c.total)[p.psn := Some(p)])], t.last), [])
  {
    var k := p.csn % c.lines;
    assert Opened(c, t.rows, p) == t.rows[k := Row(1, p.csn, NoSlots(c.total)[p.psn := Some(p)])];
  }

  /** A packet joins its chunk, which is pushed if it is complete now. */
  lemma ExtendsLine(c: Config, t: Table, p: Packet)
    requires ValidConfig(c) && Shaped(c, t.rows) && p.csn > t.last && p.psn < c.total
    requires t.rows[p.csn % c.lines].found != 0 && t.rows[p.csn % c.lines].csn == p.csn
    ensures var k := p.csn % c.lines;
      var (found, slots) := (t.rows[k].found + 1, t.rows[k].slots[p.psn := Some(p)]);
      Step(c, t, p) ==
        if found >= c.data then (Table(t.rows[k := EmptyRow(c)], p.csn), [slots])
        else (Table(t.rows[k := Row(found, p.csn, slots)], t.last), [])
  {
    var k := p.csn % c.lines;
    var (found, slots) := (t.rows[k].found + 1, t.rows[k].slots[p.psn := Some(p)]);
    assert Step(c, t, p) == Extended(c, t, p);
    assert Extended(c, t, p).0.rows == t.rows[k := if found >= c.data then EmptyRow(c) else Row(found, p.csn, slots)];
  }

  lemma OpenRowNext(c: Config, h: seq<Packet>, p: Packet)
    requires p.psn < c.total
    ensures Gathered(c, h + [p], p.csn) == Gathered(c, h, p.csn)[p.psn := Some(p)]
    ensures OpenRow(c, h + [p], p.csn) == Row(Count(h, p.csn) + 1, p.csn, Gathered(c, h + [p], p.csn))
  {
    assert Front(h + [p]) == h;
  }

  /** The line of the arriving packet holds its chunk as it has arrived so far, or nothing yet. */
  ghost predicate OwnRow(c: Config, h: seq<Packet>, t: Table, csn: nat)
    requires ValidConfig(c) && Shaped(c, t.rows)
  {
    t.rows[csn % c.lines] == if Count(h, csn) == 0 then EmptyRow(c) else OpenRow(c, h, csn)
  }

  /** What the packet does to its own line: it grows, or is pushed and emptied. */
  lemma OwnRowStep(c: Config, h: seq<Packet>, p: Packet, t: Table)
    requires ValidConfig(c) && c.data >= 2 && Shaped(c, t.rows) && p.csn > t.last && p.psn < c.total
    requires OwnRow(c, h, t, p.csn) && Count(h, p.csn) < c.data
    ensures var k := p.csn % c.lines;
      Step(c, t, p) ==
        if Count(h, p.csn) == c.data - 1
        then (Table(t.rows[k := EmptyRow(c)], p.csn), [Gathered(c, h + [p], p.csn)])
        else (Table(t.rows[k := OpenRow(c, h + [p], p.csn)], t.last), [])
  {
    hide Step, Gathered, Count;
    OpenRowNext(c, h, p);
    if Count(h, p.csn) == 0 {
      GatheredNone(c, h, p.csn);
      OpensLine(c, t, p);
    } else {
      ExtendsLine(c, t, p);
    }
  }

  lemma InTurnStep(c: Config, h: seq<Packet>, p: Packet, t: Table)
    requires ValidConfig(c) && c.data >= 2 && Shaped(c, t.rows) && OpenLines(c, h, t) && InTurn(c, h, p)
    ensures var (t', out) := Step(c, t, p);
      OpenLines(c, h + [p], t') &&
      out == (if Count(h, p.csn) == c.data - 1 then [Gathered(c, h + [p], p.csn)] else []) &&
      t'.last == (if Count(h, p.csn) == c.data - 1 then t.last + 1 else t.last) &&
      (Count(h, p.csn) == c.data - 1 ==> p.csn == t'.last)
  {
    var (t', out) := Step(c, t, p);
    CountSnoc(h, p, p.csn);
    if Count(h, p.csn) >= c.data {
      LatePacket(c, h, p, t);
    } else {
      OwnLine(c, h, p, t);
      OwnRowStep(c, h, p, t);
      hide Step, Gathered;
      CompleteSet(c, h, p, t.last);
      LinesKept(c, h, p, t, t');
    }
  }

  lemma PushOrderNext(c: Config, h: seq<Packet>)
    requires ValidConfig(c) && h != []
    ensures PushOrder(c, h) == PushOrder(c, Front(h)) +
      if Step(c, Run(c, Front(h)).0, Last(h)).1 != [] then [Last(h).csn] else []
  {
  }

  lemma CompletedNext(c: Config, h: seq<Packet>)
    requires h != []
    ensures Completed(c, h) == Completed(c, Front(h)) +
      if Count(Front(h), Last(h).csn) == c.data - 1 then [Last(h).csn] else []
  {
  }

  /** On such arrivals the assembler pushes chunks 1, 2, 3, ... as they complete, each as its
      first data packets, and nothing else. */
  lemma {:induction false} OrderedCompletion(c: Config, h: seq<Packet>)
    requires ValidConfig(c) && c.data >= 2 && AllInTurn(c, h)
    ensures Run(c, h).1 == Expected(c, h) && PushOrder(c, h) == Completed(c, h)
    ensures OpenLines(c, h, Run(c, h).0)
    ensures Completed(c, h) == UpTo(Run(c, h).0.last)
  {
    if h != [] {
      var (g, p) := (Front(h), Last(h));
      assert h == g + [p];
      OrderedCompletion(c, g);
      InTurnStep(c, g, p, Run(c, g).0);
      RunSnoc(c, g, p);
      ExpectedSnoc(c, g, p);
      CompletedNext(c, h);
      PushOrderNext(c, h);
      hide *;
      UpToNext(Run(c, g).0.last);
    }
  }

  lemma UpToNext(n: nat)
    ensures UpTo(n + 1) == UpTo(n) + [n + 1] && UpTo(n) + [] == UpTo(n)
  {
  }
}
