/** The reorder buffer of Decoder.dispatch (src/codec/decoder.go:88-178). */
module Dispatcher {
  import opened Lists
  import opened Bytes
  import opened Chunks
  import opened Arith
  import Machines

  type Slots = seq<Option<ChunkV>>

  datatype State = State(first: nat, last: nat, awaiting: nat, slots: Slots)

  function NoChunks(size: nat): (s: Slots)
    ensures |s| == size && forall k :: 0 <= k < size ==> s[k] == None
  {
    seq(size, _ => None)
  }

  /** Nothing buffered, everything up to last delivered. */
  function Idle(size: nat, last: nat): State { State(last, last, last + 1, NoChunks(size)) }

  ghost predicate Shaped(size: nat, s: State) { size >= 1 && |s.slots| == size }

  /** The inner loop: deliver chunks from the buffer while the awaited one is there. */
  function Drain(size: nat, s: State, i: nat): (r: (State, seq<ChunkV>))
    requires Shaped(size, s)
    ensures Shaped(size, r.0)
    decreases s.first - i
  {
    var at := Rem(i + 1, size);
    if i >= s.first || s.slots[at].None? || s.slots[at].value.csn != s.awaiting then (s, [])
    else
      var chunk := s.slots[at].value;
      var (s', out) := Drain(size, Delivered(s, at), i + 1);
      (s', [chunk] + out)
  }

  function Delivered(s: State, at: nat): State
    requires at < |s.slots| && s.slots[at].Some?
  {
    s.(last := s.slots[at].value.csn, awaiting := s.awaiting + 1, slots := s.slots[at := None])
  }

  ghost predicate Dropped(s: State, c: ChunkV) { c.csn == 0 || c.csn <= s.last }

  /** The slot of an early chunk is taken: its occupant is given up waiting for and delivered. */
  ghost predicate Evicts(size: nat, s: State, c: ChunkV)
    requires Shaped(size, s)
  {
    !Dropped(s, c) && c.csn != s.awaiting && s.slots[Rem(c.csn, size)].Some?
  }

  /** One arrival: the new state and the chunks delivered. */
  function Step(size: nat, s: State, c: ChunkV): (r: (State, seq<ChunkV>))
    requires Shaped(size, s)
    ensures Shaped(size, r.0)
  {
    var at := Rem(c.csn, size);
    if c.csn == 0 || c.csn <= s.last then (s, [])
    else if c.csn != s.awaiting && s.slots[at].None? then (Before(size, s, c), [])
    else
      var head := if c.csn == s.awaiting then c else s.slots[at].value;
      var (s', out) := Drain(size, Before(size, s, c), head.csn);
      (s', [head] + out)
  }

  /** What the result queue carries: the data of the delivered chunks. */
  function Results(h: seq<ChunkV>): (r: seq<seq<byte>>)
    ensures |r| == |h| && forall i :: 0 <= i < |h| ==> r[i] == h[i].data
  {
    seq(|h|, i requires 0 <= i < |h| => h[i].data)
  }

  /** The state in which the arrival has been delivered, buffered, or put in place of an evicted
      chunk that has been delivered instead; the inner loop starts from it. */
  function Before(size: nat, s: State, c: ChunkV): (r: State)
    requires Shaped(size, s)
    ensures Shaped(size, r)
  {
    var at := Rem(c.csn, size);
    var s1 := s.(first := Max(s.first, c.csn));
    if c.csn == s.awaiting then s1.(last := c.csn, awaiting := s.awaiting + 1)
    else if s.slots[at].None? then s1.(slots := s.slots[at := Some(c)])
    else
      var lost := s.slots[at].value;
      s1.(last := lost.csn, awaiting := lost.csn + 1, slots := s.slots[at := Some(c)])
  }

  function RunFrom(size: nat, s: State, h: seq<ChunkV>): (r: (State, seq<ChunkV>))
    requires Shaped(size, s)
    ensures Shaped(size, r.0)
  {
    if h == [] then (s, [])
    else
      var (s1, out) := RunFrom(size, s, Front(h));
      var (s2, more) := Step(size, s1, Last(h));
      (s2, out + more)
  }

  function Run(size: nat, h: seq<ChunkV>): (r: (State, seq<ChunkV>))
    requires size >= 1
    ensures Shaped(size, r.0)
  {
    RunFrom(size, Idle(size, 0), h)
  }

  lemma RunSnoc(size: nat, s: State, h: seq<ChunkV>, c: ChunkV)
    requires Shaped(size, s)
    ensures var (s1, out) := RunFrom(size, s, h);
      RunFrom(size, s, h + [c]) == (Step(size, s1, c).0, out + Step(size, s1, c).1)
  {
    assert Front(h + [c]) == h;
  }

  /** The step as a machine on any state; a buffer of the wrong size never arises. */
  function StepAt(size: nat): Machines.Step<State, ChunkV, ChunkV>
  {
    (s: State, c: ChunkV) => if size >= 1 && |s.slots| == size then Step(size, s, c) else (s, [])
  }

  lemma {:induction false} RunIsMachine(size: nat, s: State, h: seq<ChunkV>)
    requires Shaped(size, s)
    ensures RunFrom(size, s, h) == Machines.Run(StepAt(size), s, h)
  {
    if h != [] { RunIsMachine(size, s, Front(h)); }
  }

  lemma RunAppend(size: nat, s: State, g: seq<ChunkV>, h: seq<ChunkV>)
    requires Shaped(size, s)
    ensures var r := RunFrom(size, s, g);
      var q := RunFrom(size, r.0, h);
      RunFrom(size, s, g + h) == (q.0, r.1 + q.1)
  {
    var r := RunFrom(size, s, g);
    RunIsMachine(size, s, g);
    RunIsMachine(size, r.0, h);
    RunIsMachine(size, s, g + h);
    Machines.RunAppend(StepAt(size), s, g, h);
  }

  // ---- Invariants over all inputs ----

  ghost predicate SlotOk(size: nat, s: State, k: nat)
    requires Shaped(size, s) && k < size
  {
    s.slots[k].Some? ==> var csn := s.slots[k].value.csn; 1 <= csn <= s.first && Rem(csn, size) == k
  }

  /** The state between two deliveries. */
  ghost predicate Mid(size: nat, s: State) {
    && Shaped(size, s) && s.awaiting == s.last + 1 && s.last <= s.first
    && forall k :: 0 <= k < size ==> SlotOk(size, s, k)
  }

  /** After a step, moreover, the awaited chunk is not in the buffer. */
  ghost predicate Inv(size: nat, s: State) {
    && Mid(size, s)
    && forall k :: 0 <= k < size && s.slots[k].Some? ==> s.slots[k].value.csn != s.awaiting
  }

  /** A run of consecutive numbers. */
  ghost predicate Consecutive(h: seq<ChunkV>) {
    forall i :: 0 <= i < |h| ==> h[i].csn == h[0].csn + i
  }

  ghost predicate ConsecutiveFrom(h: seq<ChunkV>, csn: nat) {
    forall i :: 0 <= i < |h| ==> h[i].csn == csn + i
  }

  /** How often a chunk occurs in a list, and in the buffer. */
  function Times(h: seq<ChunkV>, x: ChunkV): nat
  {
    if h == [] then 0 else Times(Front(h), x) + if Last(h) == x then 1 else 0
  }

  function One(o: Option<ChunkV>, x: ChunkV): nat { if o == Some(x) then 1 else 0 }

  function Held(v: Slots, x: ChunkV): nat
  {
    if v == [] then 0 else Held(Front(v), x) + One(Last(v), x)
  }

  lemma {:induction false} TimesAppend(g: seq<ChunkV>, h: seq<ChunkV>, x: ChunkV)
    ensures Times(g + h, x) == Times(g, x) + Times(h, x)
  {
    if h == [] {
      assert g + h == g;
    } else {
      assert Front(g + h) == g + Front(h);
      TimesAppend(g, Front(h), x);
    }
  }

  lemma {:induction false} HeldUpdate(v: Slots, k: nat, o: Option<ChunkV>, x: ChunkV)
    requires k < |v|
    ensures Held(v[k := o], x) == Held(v, x) - One(v[k], x) + One(o, x)
  {
    if k < |v| - 1 {
      assert Front(v[k := o]) == Front(v)[k := o];
      HeldUpdate(Front(v), k, o, x);
    } else {
      assert Front(v[k := o]) == Front(v);
    }
  }

  /** What one delivery from the buffer leaves. */
  lemma DeliveredMid(size: nat, s: State)
    requires Mid(size, s) && s.last < s.first
    requires var at := Rem(s.last + 1, size); s.slots[at].Some? && s.slots[at].value.csn == s.awaiting
    ensures Mid(size, Delivered(s, Rem(s.last + 1, size)))
  {
    var s1 := Delivered(s, Rem(s.last + 1, size));
    forall k | 0 <= k < size ensures SlotOk(size, s1, k) { assert SlotOk(size, s, k); }
  }

  /** Draining delivers the consecutive chunks after last. */
  lemma {:induction false} DrainInv(size: nat, s: State)
    requires Mid(size, s)
    ensures var (s', out) := Drain(size, s, s.last);
      && Inv(size, s') && s'.first == s.first
      && ConsecutiveFrom(out, s.last + 1) && s'.last == s.last + |out|
    decreases s.first - s.last
  {
    var at := Rem(s.last + 1, size);
    if s.last >= s.first || s.slots[at].None? || s.slots[at].value.csn != s.awaiting {
      forall k | 0 <= k < size && s.slots[k].Some? ensures s.slots[k].value.csn != s.awaiting {
        assert SlotOk(size, s, k);
      }
    } else {
      DeliveredMid(size, s);
      DrainInv(size, Delivered(s, at));
    }
  }

  /** One delivery from the buffer, and the rest of draining. */
  lemma DrainTurn(size: nat, s: State)
    requires Shaped(size, s) && s.last < s.first && s.awaiting == s.last + 1
    requires var at := Rem(s.last + 1, size); s.slots[at].Some? && s.slots[at].value.csn == s.awaiting
    ensures var s1 := Delivered(s, Rem(s.last + 1, size));
      Drain(size, s, s.last) ==
        (Drain(size, s1, s1.last).0, [s.slots[Rem(s.last + 1, size)].value] + Drain(size, s1, s1.last).1)
  {
  }

  /** What draining takes out of the buffer is what it delivers. */
  lemma {:induction false} DrainHeld(size: nat, s: State, x: ChunkV)
    requires Mid(size, s)
    ensures var (s', out) := Drain(size, s, s.last);
      Held(s.slots, x) == Held(s'.slots, x) + Times(out, x)
    decreases s.first - s.last
  {
    var at := Rem(s.last + 1, size);
    if !(s.last >= s.first || s.slots[at].None? || s.slots[at].value.csn != s.awaiting) {
      var s1 := Delivered(s, at);
      DeliveredMid(size, s);
      DrainTurn(size, s);
      hide Drain, Mid, Held, Rem;
      HeldUpdate(s.slots, at, None, x);
      DrainHeld(size, s1, x);
      TimesAppend([s.slots[at].value], Drain(size, s1, s1.last).1, x);
    }
  }

  /** Chunks numbered at most last stay where they are. */
  lemma {:induction false} DrainStranded(size: nat, s: State, k: nat)
    requires Mid(size, s) && k < size && s.slots[k].Some? && s.slots[k].value.csn <= s.last
    ensures Drain(size, s, s.last).0.slots[k] == s.slots[k]
    ensures Drain(size, s, s.last).0.last >= s.last
    decreases s.first - s.last
  {
    var at := Rem(s.last + 1, size);
    if !(s.last >= s.first || s.slots[at].None? || s.slots[at].value.csn != s.awaiting) {
      DeliveredMid(size, s);
      DrainStranded(size, Delivered(s, at), k);
    }
  }

  lemma BeforeMid(size: nat, s: State, c: ChunkV)
    requires Inv(size, s) && !Dropped(s, c)
    ensures Mid(size, Before(size, s, c))
  {
    var s1 := Before(size, s, c);
    assert SlotOk(size, s, Rem(c.csn, size));
    forall k | 0 <= k < size ensures SlotOk(size, s1, k) { assert SlotOk(size, s, k); }
  }

  /** For every state and arrival the invariant is kept, and a step delivers a run of
      consecutive chunks ending at last. */
  lemma StepInv(size: nat, s: State, c: ChunkV)
    requires Inv(size, s)
    ensures var (s', out) := Step(size, s, c);
      Inv(size, s') && Consecutive(out) && s'.last == if out == [] then s.last else Last(out).csn
  {
    if !Dropped(s, c) {
      BeforeMid(size, s, c);
      DrainInv(size, Before(size, s, c));
    }
  }

  /** For every state and arrival no chunk is lost or made up. */
  lemma StepHeld(size: nat, s: State, c: ChunkV, x: ChunkV)
    requires Inv(size, s)
    ensures var (s', out) := Step(size, s, c);
      Held(s'.slots, x) + Times(out, x) == Held(s.slots, x) + if !Dropped(s, c) && c == x then 1 else 0
  {
    if !Dropped(s, c) {
      var (at, s1) := (Rem(c.csn, size), Before(size, s, c));
      HeldUpdate(s.slots, at, Some(c), x);
      if c.csn == s.awaiting || s.slots[at].Some? {
        BeforeMid(size, s, c);
        DrainHeld(size, s1, x);
        TimesAppend([if c.csn == s.awaiting then c else s.slots[at].value], Drain(size, s1, s1.last).1, x);
      }
    }
  }

  /** The arrivals a run did not drop. */
  function Kept(size: nat, h: seq<ChunkV>): seq<ChunkV>
    requires size >= 1
  {
    if h == [] then []
    else
      var (s, c) := (Run(size, Front(h)).0, Last(h));
      Kept(size, Front(h)) + if c.csn == 0 || c.csn <= s.last then [] else [c]
  }

  lemma {:induction false} NothingHeld(v: Slots, x: ChunkV)
    requires forall k :: 0 <= k < |v| ==> v[k].None?
    ensures Held(v, x) == 0
  {
    if v != [] { NothingHeld(Front(v), x); }
  }

  lemma {:induction false} RunInv(size: nat, h: seq<ChunkV>)
    requires size >= 1
    ensures Inv(size, Run(size, h).0)
  {
    if h != [] {
      RunInv(size, Front(h));
      StepInv(size, Run(size, Front(h)).0, Last(h));
    }
  }

  /** Conservation over every run, evictions included: each chunk was accepted as often as it
      has been delivered and is buffered. */
  lemma {:induction false} RunHeld(size: nat, h: seq<ChunkV>, x: ChunkV)
    requires size >= 1
    ensures var (s, out) := Run(size, h);
      Times(Kept(size, h), x) == Times(out, x) + Held(s.slots, x)
  {
    if h == [] {
      NothingHeld(NoChunks(size), x);
    } else {
      RunHeld(size, Front(h), x);
      RunInv(size, Front(h));
      var (s, out) := Run(size, Front(h));
      StepHeld(size, s, Last(h), x);
      TimesAppend(out, Step(size, s, Last(h)).1, x);
      TimesAppend(Kept(size, Front(h)), if Dropped(s, Last(h)) then [] else [Last(h)], x);
    }
  }

  lemma {:induction false} TimesIn(h: seq<ChunkV>, x: ChunkV)
    ensures Times(h, x) > 0 <==> x in h
  {
    if h != [] {
      TimesIn(Front(h), x);
      assert h == Front(h) + [Last(h)];
    }
  }

  lemma {:induction false} KeptFrom(size: nat, h: seq<ChunkV>, x: ChunkV)
    requires size >= 1 && x in Kept(size, h)
    ensures x in h
  {
    if x in Kept(size, Front(h)) { KeptFrom(size, Front(h), x); }
    assert h == Front(h) + [Last(h)];
  }

  /** What is delivered has arrived. */
  lemma DeliveredArrived(size: nat, h: seq<ChunkV>, x: ChunkV)
    requires size >= 1 && x in Run(size, h).1
    ensures x in h
  {
    RunHeld(size, h, x);
    TimesIn(Run(size, h).1, x);
    TimesIn(Kept(size, h), x);
    KeptFrom(size, h, x);
  }

  // ---- Order ----

  /** No buffered chunk has been passed over. */
  ghost predicate Unstranded(size: nat, s: State)
    requires Shaped(size, s)
  {
    forall k :: 0 <= k < size && s.slots[k].Some? ==> s.slots[k].value.csn > s.last
  }

  lemma {:induction false} DrainUnstranded(size: nat, s: State)
    requires Mid(size, s) && Unstranded(size, s)
    ensures Unstranded(size, Drain(size, s, s.last).0)
    decreases s.first - s.last
  {
    var at := Rem(s.last + 1, size);
    if !(s.last >= s.first || s.slots[at].None? || s.slots[at].value.csn != s.awaiting) {
      var s1 := Delivered(s, at);
      DeliveredMid(size, s);
      forall k | 0 <= k < size && s1.slots[k].Some? ensures s1.slots[k].value.csn > s1.last {
        assert SlotOk(size, s, k);
      }
      DrainUnstranded(size, s1);
    }
  }

  /** The evicted chunk comes before everything else in the buffer and before the arrival. */
  ghost predicate EvictsLowest(size: nat, s: State, c: ChunkV)
    requires Shaped(size, s) && s.slots[Rem(c.csn, size)].Some?
  {
    var (at, lost) := (Rem(c.csn, size), s.slots[Rem(c.csn, size)].value);
    lost.csn < c.csn &&
    forall k :: 0 <= k < size && k != at && s.slots[k].Some? ==> lost.csn < s.slots[k].value.csn
  }

  /** A step delivers only chunks above last. */
  ghost predicate Advances(size: nat, s: State, c: ChunkV)
    requires Shaped(size, s)
  {
    var out := Step(size, s, c).1;
    forall i :: 0 <= i < |out| ==> out[i].csn > s.last
  }

  /** The arrival evicts a chunk that had been passed over. */
  ghost predicate EvictsPassed(size: nat, s: State, c: ChunkV)
    requires Shaped(size, s)
  {
    Evicts(size, s, c) && s.slots[Rem(c.csn, size)].value.csn <= s.last
  }

  /** From any state a step leaves a gap exactly when it evicts, and goes back exactly when the
      evicted chunk had been passed over. */
  lemma StepOrder(size: nat, s: State, c: ChunkV)
    requires Inv(size, s)
    ensures Advances(size, s, c) <==> !EvictsPassed(size, s, c)
    ensures var out := Step(size, s, c).1;
      out == [] || out[0].csn == s.last + 1 <==> !Evicts(size, s, c)
  {
    StepInv(size, s, c);
    if !Dropped(s, c) {
      BeforeMid(size, s, c);
      DrainInv(size, Before(size, s, c));
      if EvictsPassed(size, s, c) {
        assert Step(size, s, c).1[0].csn <= s.last;
      }
    }
  }

  ghost predicate NeverEvicts(size: nat, h: seq<ChunkV>)
    requires size >= 1
  {
    h == [] || (NeverEvicts(size, Front(h)) && !Evicts(size, Run(size, Front(h)).0, Last(h)))
  }

  ghost predicate NeverEvictsPassed(size: nat, h: seq<ChunkV>)
    requires size >= 1
  {
    h == [] || (NeverEvictsPassed(size, Front(h)) && !EvictsPassed(size, Run(size, Front(h)).0, Last(h)))
  }

  ghost predicate Increasing(h: seq<ChunkV>) {
    forall i, j :: 0 <= i < j < |h| ==> h[i].csn < h[j].csn
  }

  /** last is the number of the latest delivery. */
  lemma {:induction false} RunLast(size: nat, h: seq<ChunkV>)
    requires size >= 1
    ensures var (s, out) := Run(size, h); s.last == if out == [] then 0 else Last(out).csn
  {
    if h != [] {
      hide Step, Inv;
      RunLast(size, Front(h));
      RunInv(size, Front(h));
      StepInv(size, Run(size, Front(h)).0, Last(h));
    }
  }

  /** Appending a run of consecutive numbers keeps a list increasing, or gapless, exactly when the
      run starts above, or right after, the last number. */
  lemma AppendRun(out: seq<ChunkV>, more: seq<ChunkV>, last: nat)
    requires Consecutive(more) && last == if out == [] then 0 else Last(out).csn
    ensures Increasing(out + more) <==>
      Increasing(out) && forall i :: 0 <= i < |more| ==> out != [] ==> more[i].csn > last
    ensures ConsecutiveFrom(out + more, 1) <==>
      ConsecutiveFrom(out, 1) && (more == [] || more[0].csn == last + 1)
  {
    var both := out + more;
    if Increasing(both) {
      forall i, j | 0 <= i < j < |out| ensures out[i].csn < out[j].csn {
        assert both[i] == out[i] && both[j] == out[j];
      }
      if out != [] {
        forall i | 0 <= i < |more| ensures more[i].csn > last {
          assert both[|out| - 1] == Last(out) && both[|out| + i] == more[i];
        }
      }
    }
    if ConsecutiveFrom(both, 1) {
      forall i | 0 <= i < |out| ensures out[i].csn == 1 + i { assert both[i] == out[i]; }
      if more != [] { assert both[|out|] == more[0]; }
    }
  }

  /** For every history the chunks come out in strictly increasing order if and only if no arrival
      evicts a chunk that had been passed over, and as 1, 2, 3, ... if and only if none evicts. */
  lemma {:induction false} OrderExact(size: nat, h: seq<ChunkV>)
    requires size >= 1
    ensures Increasing(Run(size, h).1) <==> NeverEvictsPassed(size, h)
    ensures ConsecutiveFrom(Run(size, h).1, 1) <==> NeverEvicts(size, h)
  {
    if h != [] {
      var (s, out) := Run(size, Front(h));
      OrderExact(size, Front(h));
      RunInv(size, Front(h));
      RunLast(size, Front(h));
      StepInv(size, s, Last(h));
      StepOrder(size, s, Last(h));
      if out == [] { FromStart(size, h); }
      hide Step, Inv, Evicts;
      AppendRun(out, Step(size, s, Last(h)).1, s.last);
    }
  }

  /** Before the first delivery nothing can have been passed over. */
  lemma FromStart(size: nat, h: seq<ChunkV>)
    requires size >= 1 && h != [] && Run(size, Front(h)).1 == []
    ensures !EvictsPassed(size, Run(size, Front(h)).0, Last(h))
  {
    RunInv(size, Front(h));
    RunLast(size, Front(h));
    assert SlotOk(size, Run(size, Front(h)).0, Rem(Last(h).csn, size));
  }

  /** While nothing in the buffer has been passed over, a step passes something over exactly when
      it evicts a chunk that is not the lowest. */
  lemma StrandedExact(size: nat, s: State, c: ChunkV)
    requires Inv(size, s) && Unstranded(size, s)
    ensures Unstranded(size, Step(size, s, c).0) <==> !Evicts(size, s, c) || EvictsLowest(size, s, c)
  {
    if !Dropped(s, c) {
      var (at, s1) := (Rem(c.csn, size), Before(size, s, c));
      BeforeMid(size, s, c);
      if !Evicts(size, s, c) || EvictsLowest(size, s, c) {
        forall k | 0 <= k < size && s1.slots[k].Some? ensures s1.slots[k].value.csn > s1.last {
          assert SlotOk(size, s, k);
        }
        DrainUnstranded(size, s1);
      } else {
        var k := StrandedSlot(size, s, c);
        DrainStranded(size, s1, k);
      }
    }
  }

  /** Where an eviction leaves a chunk behind. */
  ghost function StrandedSlot(size: nat, s: State, c: ChunkV): (k: nat)
    requires Inv(size, s) && Evicts(size, s, c) && !EvictsLowest(size, s, c)
    ensures k < size && Before(size, s, c).slots[k].Some?
    ensures Before(size, s, c).slots[k].value.csn <= Before(size, s, c).last
  {
    var (at, lost) := (Rem(c.csn, size), s.slots[Rem(c.csn, size)].value);
    if lost.csn >= c.csn then at
    else
      var k: nat :| k < size && k != at && s.slots[k].Some? && lost.csn >= s.slots[k].value.csn;
      k
  }

  // ---- What one arrival does, case by case ----

  /** Exactly the dropped chunks leave no trace. */
  lemma DroppedExact(size: nat, s: State, c: ChunkV)
    requires Inv(size, s)
    ensures Step(size, s, c) == (s, []) <==> Dropped(s, c)
  {
    if !Dropped(s, c) && Step(size, s, c).1 == [] {
      assert Step(size, s, c).0.slots[Rem(c.csn, size)] == Some(c) && s.slots[Rem(c.csn, size)] == None;
    }
  }

  /** The awaited chunk is delivered first; an early one is put in its slot, and delivered first is the
      chunk it finds there, if any; first is the highest number seen. What leaves the buffer after that
      is delivered, and the rest stays where it is. */
  lemma StepDelivers(size: nat, s: State, c: ChunkV)
    requires Inv(size, s) && !Dropped(s, c)
    ensures var at := Rem(c.csn, size);
      var (s', out) := Step(size, s, c);
      && s'.first == Max(s.first, c.csn)
      && (c.csn == s.awaiting ==> out != [] && out[0] == c)
      && (c.csn != s.awaiting && s.slots[at].None? ==> out == [] && s'.last == s.last)
      && (c.csn != s.awaiting && s.slots[at].Some? ==> out != [] && out[0] == s.slots[at].value)
    ensures var at := Rem(c.csn, size);
      var (s', out) := Step(size, s, c);
      var placed := if c.csn == s.awaiting then s.slots else s.slots[at := Some(c)];
      forall k :: 0 <= k < size ==> s'.slots[k] == placed[k] || LeftSlot(placed[k], s'.slots[k], out)
  {
    var b := Before(size, s, c);
    BeforeMid(size, s, c);
    DrainInv(size, b);
    DrainLeaves(size, b);
    var (s', out) := Step(size, s, c);
    if out != [] {
      assert out[1..] == Drain(size, b, b.last).1;
    }
    hide Drain, Rem;
  }

  /** The slot has been emptied, and what was in it delivered behind the first chunk. */
  ghost predicate LeftSlot(before: Option<ChunkV>, after: Option<ChunkV>, out: seq<ChunkV>) {
    before.Some? && after == None && out != [] && before.value in out[1..]
  }

  lemma {:induction false} DrainLeaves(size: nat, s: State)
    requires Mid(size, s)
    ensures var (s', out) := Drain(size, s, s.last);
      forall k :: 0 <= k < size ==>
        s'.slots[k] == s.slots[k] || (s.slots[k].Some? && s'.slots[k] == None && s.slots[k].value in out)
    decreases s.first - s.last
  {
    var at := Rem(s.last + 1, size);
    if !(s.last >= s.first || s.slots[at].None? || s.slots[at].value.csn != s.awaiting) {
      var s1 := Delivered(s, at);
      DeliveredMid(size, s);
      DrainTurn(size, s);
      hide Drain, Mid;
      DrainLeaves(size, s1);
      var out := Drain(size, s, s.last).1;
      assert out[0] == s.slots[at].value && out[1..] == Drain(size, s1, s1.last).1;
      forall x | x in out[1..] ensures x in out { }
    }
  }
}
