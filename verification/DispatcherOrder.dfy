/** What the reorder buffer does to whole streams. */
module DispatcherOrder {
  import opened Lists
  import opened Bytes
  import opened Chunks
  import opened Arith
  import opened Dispatcher

  // ---- Arrivals within the window ----

  /** Chunk numbers are new, and never more than size beyond the last delivered one. */
  ghost predicate Windowed(size: nat, h: seq<ChunkV>)
    requires size >= 1
  {
    h == [] ||
    (Windowed(size, Front(h)) &&
     1 <= Last(h).csn <= Run(size, Front(h)).0.last + size &&
     forall i :: 0 <= i < |h| - 1 ==> h[i].csn != Last(h).csn)
  }

  /** Everything up to last has been delivered in order; the buffer holds exactly the other arrivals. */
  ghost predicate InOrder(size: nat, h: seq<ChunkV>, s: State, out: seq<ChunkV>)
    requires Shaped(size, s)
  {
    && Inv(size, s) && Unstranded(size, s)
    && |out| == s.last && ConsecutiveFrom(out, 1)
    && (forall i :: 0 <= i < |out| ==> out[i] in h)
    && (forall k :: 0 <= k < size && s.slots[k].Some? ==> s.slots[k].value in h)
    && (forall i :: 0 <= i < |h| && h[i].csn > s.last ==> s.slots[Rem(h[i].csn, size)] == Some(h[i]))
  }

  /** A chunk that leaves the buffer is delivered; a chunk above the new last stays. */
  lemma {:induction false} DrainMoves(size: nat, s: State)
    requires Mid(size, s)
    ensures var (s', out) := Drain(size, s, s.last);
      forall i :: 0 <= i < |out| ==> s.slots[Rem(out[i].csn, size)] == Some(out[i])
    ensures var (s', out) := Drain(size, s, s.last);
      forall k :: 0 <= k < size && s'.slots[k].Some? ==> s'.slots[k] == s.slots[k]
    ensures var (s', out) := Drain(size, s, s.last);
      forall k :: 0 <= k < size && s.slots[k].Some? && s.slots[k].value.csn > s'.last ==> s'.slots[k] == s.slots[k]
    decreases s.first - s.last
  {
    var at := Rem(s.last + 1, size);
    if !(s.last >= s.first || s.slots[at].None? || s.slots[at].value.csn != s.awaiting) {
      var s1 := Delivered(s, at);
      DeliveredMid(size, s);
      DrainTurn(size, s);
      hide Drain, Inv;
      DrainMoves(size, s1);
      DrainInv(size, s1);
      var out := Drain(size, s, s.last).1;
      forall i | 0 <= i < |out| ensures s.slots[Rem(out[i].csn, size)] == Some(out[i]) {
        if i > 0 { assert out[i] == Drain(size, s1, s1.last).1[i - 1]; }
      }
    }
  }

  lemma NumberTaken(out: seq<ChunkV>, csn: nat)
    requires ConsecutiveFrom(out, 1)
    ensures 1 <= csn <= |out| ==> exists i :: 0 <= i < |out| && out[i].csn == csn
  {
    if 1 <= csn <= |out| {
      assert out[csn - 1].csn == csn;
    }
  }

  /** A new number within the window is neither dropped nor evicts anything. */
  lemma WindowFree(size: nat, h: seq<ChunkV>, c: ChunkV, s: State, out: seq<ChunkV>)
    requires size >= 1 && Shaped(size, s) && InOrder(size, h, s, out)
    requires forall k :: 0 <= k < size && s.slots[k].Some? ==> s.slots[k].value.csn <= s.last + size
    requires 1 <= c.csn <= s.last + size && forall i :: 0 <= i < |h| ==> h[i].csn != c.csn
    ensures c.csn > s.last && s.slots[Rem(c.csn, size)] == None
  {
    forall i | 0 <= i < |out| ensures out[i].csn != c.csn { assert out[i] in h; }
    NumberTaken(out, c.csn);
    var at := Rem(c.csn, size);
    if s.slots[at].Some? {
      var q := s.slots[at].value;
      assert SlotOk(size, s, at);
      assert q in h;
      SameInWindow(q.csn, c.csn, size);
    }
  }

  /** The awaited chunk, and what it releases. */
  lemma WindowDrain(size: nat, h: seq<ChunkV>, c: ChunkV, s: State, out: seq<ChunkV>)
    requires size >= 1 && Shaped(size, s) && InOrder(size, h, s, out) && c.csn == s.last + 1
    requires forall k :: 0 <= k < size && s.slots[k].Some? ==> s.slots[k].value.csn <= s.last + size
    ensures var (s', more) := Step(size, s, c);
      && InOrder(size, h + [c], s', out + more)
      && forall k :: 0 <= k < size && s'.slots[k].Some? ==> s'.slots[k].value.csn <= s'.last + size
  {
    StepInv(size, s, c);
    StrandedExact(size, s, c);
    BeforeMid(size, s, c);
    var b := Before(size, s, c);
    DrainMoves(size, b);
    DrainInv(size, b);
    var (s', rest) := Drain(size, b, b.last);
    hide Drain, Before;
    assert Step(size, s, c) == (s', [c] + rest);
    forall i | 0 <= i < |rest| ensures rest[i] in h {
      assert s.slots[Rem(rest[i].csn, size)] == Some(rest[i]);
    }
  }

  lemma WindowStep(size: nat, h: seq<ChunkV>, c: ChunkV, s: State, out: seq<ChunkV>)
    requires size >= 1 && Shaped(size, s) && InOrder(size, h, s, out)
    requires forall k :: 0 <= k < size && s.slots[k].Some? ==> s.slots[k].value.csn <= s.last + size
    requires 1 <= c.csn <= s.last + size && forall i :: 0 <= i < |h| ==> h[i].csn != c.csn
    ensures !Dropped(s, c) && !Evicts(size, s, c)
    ensures var (s', more) := Step(size, s, c);
      && InOrder(size, h + [c], s', out + more)
      && forall k :: 0 <= k < size && s'.slots[k].Some? ==> s'.slots[k].value.csn <= s'.last + size
  {
    WindowFree(size, h, c, s, out);
    if c.csn == s.awaiting {
      WindowDrain(size, h, c, s, out);
    } else {
      StepInv(size, s, c);
      StrandedExact(size, s, c);
      hide Drain;
      assert out + [] == out;
    }
  }

  /** Within the window the dispatcher is an ordered stream: after every run exactly chunks
      1..last have been delivered, in order, and the buffer holds exactly the arrivals above
      last, each at its number modulo size. */
  lemma {:induction false} OrderedStream(size: nat, h: seq<ChunkV>)
    requires size >= 1 && Windowed(size, h)
    ensures var (s, out) := Run(size, h);
      && InOrder(size, h, s, out)
      && forall k :: 0 <= k < size && s.slots[k].Some? ==> s.slots[k].value.csn <= s.last + size
  {
    if h != [] {
      var (g, c) := (Front(h), Last(h));
      OrderedStream(size, g);
      var (s, out) := Run(size, g);
      forall i | 0 <= i < |g| ensures g[i].csn != c.csn { assert h[i] == g[i]; }
      WindowStep(size, g, c, s, out);
      assert h == g + [c];
    }
  }

  // ---- Streams with gaps ----

  lemma IdleStep(size: nat, last: nat, c: ChunkV)
    requires size >= 1 && c.csn == last + 1
    ensures Step(size, Idle(size, last), c) == (Idle(size, last + 1), [c])
  {
    assert [c] + [] == [c];
  }

  /** A chunk that is early and finds its slot free is buffered. */
  lemma StoreStep(size: nat, s: State, c: ChunkV)
    requires Shaped(size, s) && c.csn > s.first >= s.last && c.csn != s.awaiting && s.slots[Rem(c.csn, size)].None?
    ensures Step(size, s, c) == (State(c.csn, s.last, s.awaiting, s.slots[Rem(c.csn, size) := Some(c)]), [])
  {
  }

  /** A chunk that is early and finds its slot taken replaces the occupant, which is delivered. */
  lemma EvictStep(size: nat, s: State, c: ChunkV, lost: ChunkV)
    requires Shaped(size, s) && c.csn > s.first >= s.last && c.csn != s.awaiting
    requires s.slots[Rem(c.csn, size)] == Some(lost)
    ensures var s1 := State(c.csn, lost.csn, lost.csn + 1, s.slots[Rem(c.csn, size) := Some(c)]);
      Step(size, s, c) == (Drain(size, s1, lost.csn).0, [lost] + Drain(size, s1, lost.csn).1)
  {
  }

  /** The next chunks in order are delivered at once. */
  lemma {:induction false} StraightThrough(size: nat, last: nat, h: seq<ChunkV>)
    requires size >= 1 && ConsecutiveFrom(h, last + 1)
    ensures RunFrom(size, Idle(size, last), h) == (Idle(size, last + |h|), h)
  {
    if h != [] {
      StraightThrough(size, last, Front(h));
      IdleStep(size, last + |h| - 1, Last(h));
      assert h == Front(h) + [Last(h)];
    }
  }

  /** The buffer after the chunks of h have been put in it. */
  function Placed(size: nat, h: seq<ChunkV>): (s: Slots)
    requires size >= 1
    ensures |s| == size
  {
    if h == [] then NoChunks(size) else Placed(size, Front(h))[Rem(Last(h).csn, size) := Some(Last(h))]
  }

  lemma {:induction false} PlacedAt(size: nat, h: seq<ChunkV>, a: nat)
    requires size >= 1 && |h| <= size && ConsecutiveFrom(h, a)
    ensures forall i :: 0 <= i < |h| ==> Placed(size, h)[Rem(h[i].csn, size)] == Some(h[i])
    ensures forall k :: 0 <= k < size && Placed(size, h)[k].Some? ==>
      Placed(size, h)[k].value in h && Rem(Placed(size, h)[k].value.csn, size) == k
  {
    if h != [] {
      var (g, c) := (Front(h), Last(h));
      PlacedAt(size, g, a);
      assert h == g + [c];
      forall i | 0 <= i < |g| ensures Rem(g[i].csn, size) != Rem(c.csn, size) {
        DistinctInWindow(g[i].csn, c.csn, size);
      }
    }
  }

  /** After a gap up to size chunks are only buffered. */
  lemma {:induction false} Buffering(size: nat, last: nat, h: seq<ChunkV>, a: nat)
    requires size >= 1 && |h| <= size && a > last + 1 && ConsecutiveFrom(h, a)
    ensures RunFrom(size, Idle(size, last), h) ==
      (State(if h == [] then last else a + |h| - 1, last, last + 1, Placed(size, h)), [])
  {
    if h != [] {
      var (g, c) := (Front(h), Last(h));
      assert h == g + [c];
      Buffering(size, last, g, a);
      PlacedAt(size, g, a);
      if Placed(size, g)[Rem(c.csn, size)].Some? {
        var q := Placed(size, g)[Rem(c.csn, size)].value;
        SameInWindow(q.csn, c.csn, size);
      }
      var r := RunFrom(size, Idle(size, last), g);
      StoreStep(size, r.0, c);
      hide Drain, Before, Step, RunFrom;
      RunSnoc(size, Idle(size, last), g, c);
      assert r.1 + [] == [];
    }
  }

  /** The buffer holds the chunks of h, each in its slot, and nothing else. */
  ghost predicate HoldsExactly(size: nat, slots: Slots, h: seq<ChunkV>)
    requires |slots| == size >= 1
  {
    && (forall i :: 0 <= i < |h| ==> slots[Rem(h[i].csn, size)] == Some(h[i]))
    && (forall k :: 0 <= k < size && slots[k].Some? ==> slots[k].value in h && Rem(slots[k].value.csn, size) == k)
  }

  lemma HoldsRest(size: nat, slots: Slots, h: seq<ChunkV>, a: nat)
    requires |slots| == size >= 1 && 1 <= |h| <= size && ConsecutiveFrom(h, a) && HoldsExactly(size, slots, h)
    ensures HoldsExactly(size, slots[Rem(a, size) := None], h[1..])
  {
    var rest := h[1..];
    var s1 := slots[Rem(a, size) := None];
    forall i | 0 <= i < |rest| ensures s1[Rem(rest[i].csn, size)] == Some(rest[i]) {
      assert rest[i] == h[i + 1];
      DistinctInWindow(rest[i].csn, a, size);
    }
    forall k | 0 <= k < size && s1[k].Some? ensures s1[k].value in rest && Rem(s1[k].value.csn, size) == k {
      var i :| 0 <= i < |h| && h[i] == slots[k].value;
      if i > 0 { assert h[i] == rest[i - 1]; }
    }
  }

  /** A buffer holding exactly the chunks after last up to first is delivered whole. */
  lemma {:induction false} DrainWhole(size: nat, s: State, h: seq<ChunkV>)
    requires Shaped(size, s) && s.awaiting == s.last + 1 && s.first == s.last + |h| && |h| <= size
    requires ConsecutiveFrom(h, s.last + 1) && HoldsExactly(size, s.slots, h)
    ensures Drain(size, s, s.last) == (Idle(size, s.first), h)
    decreases |h|
  {
    if h == [] {
      assert s.slots == NoChunks(size);
    } else {
      var at := Rem(s.last + 1, size);
      assert s.slots[Rem(h[0].csn, size)] == Some(h[0]);
      HoldsRest(size, s.slots, h, s.last + 1);
      DrainWhole(size, Delivered(s, at), h[1..]);
      assert [h[0]] + h[1..] == h;
    }
  }

  /** All but the last of h fill the buffer, and the last belongs where the first is. */
  lemma Overflow(size: nat, h: seq<ChunkV>, a: nat)
    requires size >= 1 && |h| == size + 1 && ConsecutiveFrom(h, a)
    ensures HoldsExactly(size, Placed(size, Front(h)), Front(h))
    ensures Rem(Last(h).csn, size) == Rem(a, size)
    ensures Placed(size, Front(h))[Rem(a, size)] == Some(h[0])
  {
    var g := Front(h);
    PlacedAt(size, g, a);
    hide Placed;
    assert Placed(size, g)[Rem(g[0].csn, size)] == Some(g[0]);
  }

  /** The buffer when the last of h has replaced the first. */
  lemma Replaced(size: nat, slots: Slots, h: seq<ChunkV>, a: nat)
    requires |slots| == size >= 1 && |h| == size + 1 && ConsecutiveFrom(h, a)
    requires HoldsExactly(size, slots, Front(h)) && Rem(Last(h).csn, size) == Rem(a, size)
    ensures HoldsExactly(size, slots[Rem(a, size) := Some(Last(h))], h[1..])
  {
    var (g, c, rest) := (Front(h), Last(h), h[1..]);
    HoldsRest(size, slots, g, a);
    assert rest == g[1..] + [c];
    var emptied := slots[Rem(a, size) := None];
    assert slots[Rem(a, size) := Some(c)] == emptied[Rem(a, size) := Some(c)];
    hide Rem;
    JoinBuffer(size, emptied, g[1..], c);
  }

  /** A chunk joins those in the buffer, in an empty slot. */
  lemma JoinBuffer(size: nat, slots: Slots, h: seq<ChunkV>, c: ChunkV)
    requires |slots| == size >= 1 && HoldsExactly(size, slots, h) && slots[Rem(c.csn, size)] == None
    ensures HoldsExactly(size, slots[Rem(c.csn, size) := Some(c)], h + [c])
  {
    hide Rem;
    var all := h + [c];
    assert all[|h|] == c;
    forall i | 0 <= i < |h| ensures all[i] == h[i] && Rem(h[i].csn, size) != Rem(c.csn, size) { }
  }

  lemma Flush(size: nat, s0: State, g: seq<ChunkV>, s: State, c: ChunkV, lost: ChunkV, s1: State,
              rest: seq<ChunkV>, end: State)
    requires Shaped(size, s0) && RunFrom(size, s0, g) == (s, [])
    requires Shaped(size, s1) && Drain(size, s1, lost.csn) == (end, rest)
    requires Step(size, s, c) == (end, [lost] + rest)
    ensures RunFrom(size, s0, g + [c]) == (end, [lost] + rest)
  {
    hide Drain, Before, Step;
    RunSnoc(size, s0, g, c);
    assert [] + ([lost] + rest) == [lost] + rest;
  }

  /** The chunk that overflows the buffer after a gap flushes all of it. */
  lemma GapCloses(size: nat, last: nat, h: seq<ChunkV>, a: nat)
    requires size >= 1 && |h| == size + 1 && a > last + 1 && ConsecutiveFrom(h, a)
    ensures RunFrom(size, Idle(size, last), h) == (Idle(size, a + size), h)
  {
    hide Drain, Before, Step, RunFrom, Placed, HoldsExactly;
    var (g, c) := (Front(h), Last(h));
    var s := State(a + size - 1, last, last + 1, Placed(size, g));
    var s1 := State(a + size, a, a + 1, Placed(size, g)[Rem(a, size) := Some(c)]);
    Buffering(size, last, g, a);
    Overflow(size, h, a);
    Replaced(size, Placed(size, g), h, a);
    EvictStep(size, s, c, h[0]);
    DrainWhole(size, s1, h[1..]);
    Flush(size, Idle(size, last), g, s, c, h[0], s1, h[1..], Idle(size, a + size));
    assert h == g + [c] == [h[0]] + h[1..];
  }

  lemma JoinRuns(size: nat, s: State, g: seq<ChunkV>, h: seq<ChunkV>, s1: State, s2: State)
    requires Shaped(size, s) && RunFrom(size, s, g) == (s1, g) && RunFrom(size, s1, h) == (s2, h)
    ensures RunFrom(size, s, g + h) == (s2, g + h)
  {
    RunAppend(size, s, g, h);
  }

  /** After a gap the dispatcher delivers a run of consecutive chunks exactly when the run
      is longer than its buffer, and until then delivers nothing. */
  lemma Resynchronises(size: nat, last: nat, h: seq<ChunkV>, a: nat)
    requires size >= 1 && h != [] && a > last + 1 && ConsecutiveFrom(h, a)
    ensures |h| > size ==> RunFrom(size, Idle(size, last), h) == (Idle(size, a + |h| - 1), h)
    ensures |h| <= size ==> RunFrom(size, Idle(size, last), h).1 == []
  {
    hide Drain, Before, Step, RunFrom;
    if |h| > size {
      var (g, rest) := (h[..size + 1], h[size + 1..]);
      GapCloses(size, last, g, a);
      forall i | 0 <= i < |rest| ensures rest[i].csn == a + size + 1 + i { assert rest[i] == h[size + 1 + i]; }
      StraightThrough(size, a + size, rest);
      JoinRuns(size, Idle(size, last), g, rest, Idle(size, a + size), Idle(size, a + |h| - 1));
      assert h == g + rest;
    } else {
      Buffering(size, last, h, a);
    }
  }

  /** A stream of runs with increasing numbers; a run that follows a gap is longer than the buffer. */
  ghost predicate GapsClose(size: nat, last: nat, runs: seq<seq<ChunkV>>) {
    runs == [] ||
    (GapsClose(size, last, Front(runs)) &&
     var (h, end) := (Last(runs), EndOf(last, Front(runs)));
     h != [] && h[0].csn >= end + 1 && ConsecutiveFrom(h, h[0].csn) &&
     (h[0].csn > end + 1 ==> |h| > size))
  }

  function EndOf(last: nat, runs: seq<seq<ChunkV>>): nat
  {
    if runs == [] || Last(runs) == [] then last else Last(Last(runs)).csn
  }

  lemma {:induction false} GapRun(size: nat, end: nat, h: seq<ChunkV>)
    requires size >= 1 && h != [] && h[0].csn >= end + 1 && ConsecutiveFrom(h, h[0].csn)
    requires h[0].csn > end + 1 ==> |h| > size
    ensures RunFrom(size, Idle(size, end), h) == (Idle(size, Last(h).csn), h)
  {
    hide RunFrom;
    if h[0].csn > end + 1 {
      Resynchronises(size, end, h, h[0].csn);
    } else {
      StraightThrough(size, end, h);
    }
  }

  /** Such a stream is delivered whole and in order: only the missing chunks are absent. */
  lemma {:induction false} GapsAreSkipped(size: nat, last: nat, runs: seq<seq<ChunkV>>)
    requires size >= 1 && GapsClose(size, last, runs)
    ensures RunFrom(size, Idle(size, last), Flatten(runs)) == (Idle(size, EndOf(last, runs)), Flatten(runs))
  {
    if runs != [] {
      var (front, h) := (Front(runs), Last(runs));
      GapsAreSkipped(size, last, front);
      var end := EndOf(last, front);
      GapRun(size, end, h);
      hide RunFrom, Idle, GapsClose, ConsecutiveFrom;
      JoinRuns(size, Idle(size, last), Flatten(front), h, Idle(size, end), Idle(size, EndOf(last, runs)));
    }
  }

  // ---- Increasing arrivals are not enough ----

  function Numbered(csn: uint64): ChunkV { ChunkV(1, 1, 1, csn, []) }

  /** A buffer of two slots. */
  function Two(first: nat, last: nat, even: Option<ChunkV>, odd: Option<ChunkV>): State
  {
    State(first, last, last + 1, [even, odd])
  }

  /** Where a chunk goes in it. */
  lemma TwoSlots(csn: nat)
    ensures Rem(csn, 2) == csn % 2
  {
    RemIsMod(csn, 2);
  }

  lemma StoreOdd(first: nat, last: nat, even: Option<ChunkV>, c: ChunkV)
    requires c.csn > first >= last && c.csn > last + 1 && c.csn % 2 == 1
    ensures Step(2, Two(first, last, even, None), c) == (Two(c.csn, last, even, Some(c)), [])
  {
    TwoSlots(c.csn);
    StoreStep(2, Two(first, last, even, None), c);
    hide Step, Rem;
    assert [even, None][1 := Some(c)] == [even, Some(c)];
  }

  lemma StoreEven(first: nat, last: nat, odd: Option<ChunkV>, c: ChunkV)
    requires c.csn > first >= last && c.csn > last + 1 && c.csn % 2 == 0
    ensures Step(2, Two(first, last, None, odd), c) == (Two(c.csn, last, Some(c), odd), [])
  {
    TwoSlots(c.csn);
    StoreStep(2, Two(first, last, None, odd), c);
    hide Step, Rem;
    assert [None, odd][0 := Some(c)] == [Some(c), odd];
  }

  lemma EvictEven(first: nat, last: nat, lost: ChunkV, odd: ChunkV, c: ChunkV)
    requires c.csn > first >= last && c.csn > last + 1 && c.csn % 2 == lost.csn % 2 == 0 && odd.csn != lost.csn + 1
    ensures Step(2, Two(first, last, Some(lost), Some(odd)), c) == (Two(c.csn, lost.csn, Some(c), Some(odd)), [lost])
  {
    TwoSlots(c.csn);
    TwoSlots(lost.csn + 1);
    EvictStep(2, Two(first, last, Some(lost), Some(odd)), c, lost);
    hide Step, Rem;
    assert [Some(lost), Some(odd)][0 := Some(c)] == [Some(c), Some(odd)];
    assert [lost] + [] == [lost];
  }

  lemma EvictOdd(first: nat, last: nat, even: ChunkV, lost: ChunkV, c: ChunkV)
    requires c.csn > first >= last && c.csn > last + 1 && c.csn % 2 == lost.csn % 2 == 1 && even.csn != lost.csn + 1
    ensures Step(2, Two(first, last, Some(even), Some(lost)), c) == (Two(c.csn, lost.csn, Some(even), Some(c)), [lost])
  {
    TwoSlots(c.csn);
    TwoSlots(lost.csn + 1);
    EvictStep(2, Two(first, last, Some(even), Some(lost)), c, lost);
    hide Step, Rem;
    assert [Some(even), Some(lost)][1 := Some(c)] == [Some(even), Some(c)];
    assert [lost] + [] == [lost];
  }

  lemma FourSteps(size: nat, s: State, a: ChunkV, b: ChunkV, c: ChunkV, d: ChunkV)
    requires Shaped(size, s)
    ensures var x := Step(size, s, a);
      var y := Step(size, x.0, b);
      var z := Step(size, y.0, c);
      RunFrom(size, s, [a, b, c, d]).1 == ((x.1 + y.1) + z.1) + Step(size, z.0, d).1
  {
    hide Step;
    RunSnoc(size, s, [], a);
    RunSnoc(size, s, [a], b);
    RunSnoc(size, s, [a, b], c);
    RunSnoc(size, s, [a, b, c], d);
    assert [] + [a] == [a] && [a] + [b] == [a, b] && [a, b] + [c] == [a, b, c] && [a, b, c] + [d] == [a, b, c, d];
    assert [] + Step(size, s, a).1 == Step(size, s, a).1;
  }

  lemma FourOut(a: ChunkV, b: ChunkV)
    ensures (([] + []) + [a]) + [b] == [a, b]
  {
  }

  lemma FourIncrease()
    ensures Increasing([Numbered(3), Numbered(4), Numbered(6), Numbered(7)])
  {
  }

  /** Strictly increasing arrivals, delivered out of order: evicting 4 strands 3. */
  lemma IncreasingNotEnough()
    ensures var h := [Numbered(3), Numbered(4), Numbered(6), Numbered(7)];
      Increasing(h) && Run(2, h).1 == [Numbered(4), Numbered(3)]
  {
    var (c3, c4, c6, c7) := (Numbered(3), Numbered(4), Numbered(6), Numbered(7));
    FourIncrease();
    assert Idle(2, 0) == Two(0, 0, None, None) by { assert NoChunks(2) == [None, None]; }
    StoreOdd(0, 0, None, c3);
    StoreEven(3, 0, Some(c3), c4);
    EvictEven(4, 0, c4, c3, c6);
    EvictOdd(6, 4, c6, c3, c7);
    FourOut(c4, c3);
    hide Step, RunFrom, Two, Idle, Increasing, Numbered;
    FourSteps(2, Idle(2, 0), c3, c4, c6, c7);
  }
}
