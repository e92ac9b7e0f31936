/** Counting facts of the assembler over all runs: found counts, push bounds. */
module AssemblerCounts {
  import opened Lists
  import opened Packets
  import opened Assembler
  import Arith

  /** Arrivals of one chunk. */
  function Count(h: seq<Packet>, csn: nat): (n: nat)
    ensures n <= |h|
  {
    if h == [] then 0 else Count(Front(h), csn) + if Last(h).csn == csn then 1 else 0
  }

  lemma CountSnoc(h: seq<Packet>, p: Packet, csn: nat)
    ensures Count(h + [p], csn) == Count(h, csn) + if p.csn == csn then 1 else 0
  {
    assert Front(h + [p]) == h;
  }

  lemma {:induction false} CountZero(h: seq<Packet>, csn: nat)
    ensures Count(h, csn) == 0 <==> forall i :: 0 <= i < |h| ==> h[i].csn != csn
  {
    if h != [] {
      CountZero(Front(h), csn);
      assert h == Front(h) + [Last(h)];
    }
  }

  /** No two arrivals carry the same chunk and packet number. */
  ghost predicate Distinct(h: seq<Packet>) {
    forall i, j :: 0 <= i < j < |h| ==> h[i].csn != h[j].csn || h[i].psn != h[j].psn
  }

  // ---- found against filled slots ----

  ghost predicate Exact(t: Table) {
    forall k :: 0 <= k < |t.rows| ==> t.rows[k].found == CountSome(t.rows[k].slots)
  }

  ghost predicate Duplicate(c: Config, t: Table, p: Packet)
    requires ValidConfig(c) && Shaped(c, t.rows) && p.psn < c.total
  {
    var row := t.rows[p.csn % c.lines];
    !Ignored(c, t, p) && row.csn == p.csn && row.slots[p.psn].Some?
  }

  /** How many packets a chunk is pushed with: data, but never the one that opened its line alone. */
  function PushSize(c: Config): nat { Max(2, c.data) }

  /** The configuration that says so: with one data shard the table works as if there were two. */
  function Effective(c: Config): Config { c.(data := PushSize(c)) }

  lemma StepEffective(c: Config, t: Table, p: Packet)
    requires ValidConfig(c) && Shaped(c, t.rows)
    ensures ValidConfig(Effective(c)) && Step(c, t, p) == Step(Effective(c), t, p)
  {
  }

  lemma {:induction false} RunEffective(c: Config, h: seq<Packet>)
    requires ValidConfig(c)
    ensures ValidConfig(Effective(c)) && Run(c, h) == Run(Effective(c), h)
  {
    if h != [] {
      RunEffective(c, Front(h));
      StepEffective(c, Run(c, Front(h)).0, Last(h));
    }
  }

  /** The found counter is the number of filled slots, and a pushed vector holds as many packets as
      it should, as long as no accepted packet is already in its line; the first duplicate breaks it. */
  lemma ExactStep(c: Config, t: Table, p: Packet)
    requires ValidConfig(c) && Pure(c, t) && Exact(t) && p.psn < c.total
    ensures var (t', out) := Step(c, t, p);
      Exact(t') && (forall v :: v in out ==> CountSome(v) == PushSize(c)) <==> !Duplicate(c, t, p)
  {
    var (t', out) := Step(c, t, p);
    var k := p.csn % c.lines;
    var row := t.rows[k];
    CountSomeUpdate(row.slots, p.psn, Some(p));
    CountSomeNone(NoSlots(c.total));
    CountSomeUpdate(NoSlots(c.total), p.psn, Some(p));
    CountSomeNone(row.slots);
    if Duplicate(c, t, p) {
      if out == [] {
        assert t'.rows[k].found == row.found + 1;
      } else {
        assert out[0] in out;
      }
    }
  }

  ghost predicate SlotsFrom(c: Config, t: Table, h: seq<Packet>)
    requires Shaped(c, t.rows)
  {
    forall k, s :: 0 <= k < c.lines && 0 <= s < c.total && t.rows[k].slots[s].Some? ==>
      t.rows[k].slots[s].value in h
  }

  /** On a duplicate-free run every found counter is exact and every pushed vector holds
      exactly as many packets as it should. */
  lemma {:induction false} RunExact(c: Config, h: seq<Packet>)
    requires ValidConfig(c) && InBounds(c, h) && Distinct(h)
    ensures Exact(Run(c, h).0)
    ensures forall v :: v in Run(c, h).1 ==> CountSome(v) == PushSize(c)
  {
    if h == [] {
      CountSomeNone(NoSlots(c.total));
    } else {
      var (g, p) := (Front(h), Last(h));
      RunExact(c, g);
      RunPure(c, g);
      RunSlots(c, g);
      NoDuplicate(c, Run(c, g).0, g, p, h);
      ExactStep(c, Run(c, g).0, p);
    }
  }

  lemma NoDuplicate(c: Config, t: Table, g: seq<Packet>, p: Packet, h: seq<Packet>)
    requires ValidConfig(c) && Pure(c, t) && SlotsFrom(c, t, g)
    requires h == g + [p] && Distinct(h) && p.psn < c.total
    ensures !Duplicate(c, t, p)
  {
    var k := p.csn % c.lines;
    assert PureRow(c, t.rows[k], k);
    forall i | 0 <= i < |g| ensures g[i].csn != p.csn || g[i].psn != p.psn {
      assert h[i] == g[i] && h[|g|] == p;
    }
  }

  /** A slot keeps its packet, is emptied, or takes the arriving packet. */
  lemma SlotAfter(c: Config, t: Table, p: Packet, k: nat, s: nat)
    requires ValidConfig(c) && Shaped(c, t.rows) && k < c.lines && s < c.total
    ensures var slot := Step(c, t, p).0.rows[k].slots[s];
      slot == None || slot == Some(p) || slot == t.rows[k].slots[s]
  {
  }

  lemma SlotsFromStep(c: Config, t: Table, g: seq<Packet>, p: Packet)
    requires ValidConfig(c) && Shaped(c, t.rows) && SlotsFrom(c, t, g)
    ensures SlotsFrom(c, Step(c, t, p).0, g + [p])
  {
    var t' := Step(c, t, p).0;
    forall k, s | 0 <= k < c.lines && 0 <= s < c.total && t'.rows[k].slots[s].Some?
      ensures t'.rows[k].slots[s].value in g + [p]
    {
      SlotAfter(c, t, p, k, s);
    }
  }

  /** Over every run the table holds only arrivals. */
  lemma {:induction false} RunSlots(c: Config, h: seq<Packet>)
    requires ValidConfig(c)
    ensures SlotsFrom(c, Run(c, h).0, h)
  {
    if h != [] {
      hide Step;
      RunSlots(c, Front(h));
      SlotsFromStep(c, Run(c, Front(h)).0, Front(h), Last(h));
      assert Front(h) + [Last(h)] == h;
    }
  }

  // ---- How often a chunk is pushed ----

  /** The chunks pushed, in order. */
  function PushOrder(c: Config, h: seq<Packet>): (s: seq<nat>)
    requires ValidConfig(c)
  {
    if h == [] then []
    else PushOrder(c, Front(h)) + if Step(c, Run(c, Front(h)).0, Last(h)).1 != [] then [Last(h).csn] else []
  }

  lemma {:induction false} PushOrderEffective(c: Config, h: seq<Packet>)
    requires ValidConfig(c)
    ensures ValidConfig(Effective(c)) && PushOrder(c, h) == PushOrder(Effective(c), h)
  {
    if h != [] {
      PushOrderEffective(c, Front(h));
      RunEffective(c, Front(h));
      StepEffective(c, Run(c, Front(h)).0, Last(h));
    }
  }

  /** Pushes of one chunk. */
  function Pushes(c: Config, h: seq<Packet>, csn: nat): nat
    requires ValidConfig(c)
  {
    multiset(PushOrder(c, h))[csn]
  }

  lemma PushesNext(c: Config, h: seq<Packet>, csn: nat)
    requires ValidConfig(c) && h != []
    ensures Pushes(c, h, csn) == Pushes(c, Front(h), csn) +
      if Last(h).csn == csn && Step(c, Run(c, Front(h)).0, Last(h)).1 != [] then 1 else 0
  {
    hide Step, Run;
  }

  /** The found counter of a chunk that owns its line. */
  function Live(c: Config, t: Table, csn: nat): nat
    requires ValidConfig(c) && Shaped(c, t.rows)
  {
    var row := t.rows[csn % c.lines];
    if row.csn == csn then row.found else 0
  }

  lemma LiveStep(c: Config, t: Table, p: Packet, csn: nat)
    requires ValidConfig(c) && Shaped(c, t.rows)
    ensures var (t', out) := Step(c, t, p);
      p.csn != csn ==> Live(c, t', csn) <= Live(c, t, csn)
    ensures var (t', out) := Step(c, t, p);
      p.csn == csn ==> Live(c, t', csn) + (if out != [] then c.data else 0) <= Live(c, t, csn) + 1
  {
  }

  /** Every push uses up data arrivals, over all runs whatever the packet numbers, although
      last is not monotone. */
  lemma {:induction false} PushBound(c: Config, h: seq<Packet>, csn: nat)
    requires ValidConfig(c)
    ensures Pushes(c, h, csn) * c.data + Live(c, Run(c, h).0, csn) <= Count(h, csn)
  {
    if h != [] {
      PushBound(c, Front(h), csn);
      hide Step, Pushes, Live;
      PushesNext(c, h, csn);
      LiveStep(c, Run(c, Front(h)).0, Last(h), csn);
      Arith.MulSucc(Pushes(c, Front(h), csn), c.data);
    }
  }

  /** The packet numbers a chunk arrived with. */
  function Numbers(h: seq<Packet>, csn: nat): set<nat>
  {
    if h == [] then {} else Numbers(Front(h), csn) + if Last(h).csn == csn then {Last(h).psn} else {}
  }

  lemma {:induction false} NumbersFrom(h: seq<Packet>, csn: nat, n: nat)
    ensures n in Numbers(h, csn) <==> exists i :: 0 <= i < |h| && h[i].csn == csn && h[i].psn == n
  {
    if h != [] {
      NumbersFrom(Front(h), csn, n);
      assert h == Front(h) + [Last(h)];
    }
  }

  lemma {:induction false} DistinctCount(h: seq<Packet>, csn: nat)
    requires Distinct(h)
    ensures |Numbers(h, csn)| == Count(h, csn)
  {
    if h != [] {
      DistinctCount(Front(h), csn);
      NumbersFrom(Front(h), csn, Last(h).psn);
    }
  }

  lemma {:induction false} BoundedSet(s: set<nat>, n: nat)
    requires forall x :: x in s ==> x < n
    ensures |s| <= n
  {
    if n > 0 {
      BoundedSet(s - {n - 1}, n - 1);
    } else {
      assert s == {};
    }
  }

  /** A duplicate-free chunk arrives at most total times. */
  lemma CountBound(c: Config, h: seq<Packet>, csn: nat)
    requires InBounds(c, h) && Distinct(h)
    ensures Count(h, csn) <= c.total
  {
    DistinctCount(h, csn);
    forall n | n in Numbers(h, csn) ensures n < c.total { NumbersFrom(h, csn, n); }
    BoundedSet(Numbers(h, csn), c.total);
  }

  lemma AtLeastTwice(n: nat, d: nat)
    ensures n >= 2 ==> 2 * d <= n * d
  {
    if n >= 2 {
      assert n * d == 2 * d + (n - 2) * d;
    }
  }

  /** With less than double redundancy no chunk is pushed twice. */
  lemma PushedOnce(c: Config, h: seq<Packet>, csn: nat)
    requires ValidConfig(c) && InBounds(c, h) && Distinct(h) && c.total < 2 * c.data
    ensures Pushes(c, h, csn) <= 1
  {
    PushBound(c, h, csn);
    CountBound(c, h, csn);
    AtLeastTwice(Pushes(c, h, csn), c.data);
  }
}
