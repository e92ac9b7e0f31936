/** Exactly when losses are made good: for streams of no more chunks than the assembler has lines. */
module RecoveryExact {
  import opened Lists
  import opened Bytes
  import opened Packets
  import opened Chunks
  import opened ErasureCode
  import opened EncodeStage
  import opened Arith
  import opened Assembler
  import opened AssemblerCounts
  import opened AssemblerOrder
  import opened Decoder
  import opened EndToEnd
  import Recovery
  import Dispatcher

  /** All arrivals belong to chunks 1 to n, which have a line each. */
  ghost predicate OwnLines(c: Config, h: seq<Packet>, n: nat) {
    n <= c.lines && forall i :: 0 <= i < |h| ==> 1 <= h[i].csn <= n && h[i].psn < c.total
  }

  // ---- What the assembler pushes then ----

  /** The number of the last chunk pushed. */
  function Latest(s: seq<nat>): nat { if s == [] then 0 else Last(s) }

  /** The chunks pushed: each on its data-th packet, unless a higher one has been pushed before. */
  function Pushed(c: Config, h: seq<Packet>): (s: seq<nat>)
    decreases |h|, 0
  {
    if h == [] then [] else Pushed(c, Front(h)) + PushedNow(c, Front(h), Last(h))
  }

  function PushedNow(c: Config, h: seq<Packet>, p: Packet): seq<nat>
    decreases |h|, 1
  {
    if Count(h, p.csn) == c.data - 1 && p.csn > Latest(Pushed(c, h)) then [p.csn] else []
  }

  /** Chunks above last are open in their own lines or have not begun. */
  ghost predicate FreshLines(c: Config, h: seq<Packet>, t: Table, n: nat)
    requires ValidConfig(c) && Shaped(c, t.rows)
  {
    && t.last == Latest(Pushed(c, h))
    && forall e: nat :: t.last < e <= n ==> FreshLine(c, h, t, e)
  }

  ghost predicate FreshLine(c: Config, h: seq<Packet>, t: Table, e: nat)
    requires ValidConfig(c) && Shaped(c, t.rows)
  {
    Count(h, e) < c.data && OwnRow(c, h, t, e)
  }

  /** Chunk e of the n keeps its line to itself. */
  lemma OtherLine(c: Config, n: nat, a: nat, b: nat)
    requires 1 <= n <= c.lines && 1 <= a <= n && 1 <= b <= n && a != b
    ensures a % c.lines != b % c.lines
  {
    if a % c.lines == b % c.lines { Recovery.SameRemainder(a, b, c.lines); }
  }

  /** What the packet does to last and to the lines: only its own line changes. */
  lemma OwnLineStep(c: Config, h: seq<Packet>, p: Packet, t: Table, n: nat)
    requires ValidConfig(c) && c.data >= 2 && Shaped(c, t.rows) && FreshLines(c, h, t, n)
    requires 1 <= p.csn <= n && p.psn < c.total
    ensures var (t', out) := Step(c, t, p);
      && t'.last == Latest(Pushed(c, h + [p])) && t'.last >= t.last && |out| == |PushedNow(c, h, p)|
      && (t'.last < p.csn ==> FreshLine(c, h + [p], t', p.csn))
      && forall k :: 0 <= k < c.lines && k != p.csn % c.lines ==> t'.rows[k] == t.rows[k]
  {
    assert Front(h + [p]) == h;
    CountSnoc(h, p, p.csn);
    if p.csn > t.last {
      assert FreshLine(c, h, t, p.csn);
      OwnRowStep(c, h, p, t);
    } else {
      assert Step(c, t, p) == (t, []);
    }
    hide Step, Gathered, Count;
  }

  lemma OtherFresh(c: Config, h: seq<Packet>, p: Packet, t: Table, t': Table, e: nat)
    requires ValidConfig(c) && Shaped(c, t.rows) && Shaped(c, t'.rows) && FreshLine(c, h, t, e) && e != p.csn
    requires t'.rows[e % c.lines] == t.rows[e % c.lines]
    ensures FreshLine(c, h + [p], t', e)
  {
    OtherChunk(c, h, p, e);
  }

  lemma FreshStep(c: Config, h: seq<Packet>, p: Packet, t: Table, n: nat)
    requires ValidConfig(c) && c.data >= 2 && Shaped(c, t.rows) && FreshLines(c, h, t, n)
    requires n <= c.lines && 1 <= p.csn <= n && p.psn < c.total
    ensures var (t', out) := Step(c, t, p);
      FreshLines(c, h + [p], t', n) && |out| == |PushedNow(c, h, p)|
  {
    var (t', out) := Step(c, t, p);
    OwnLineStep(c, h, p, t, n);
    hide Step, FreshLine, Pushed;
    forall e: nat | t'.last < e <= n ensures FreshLine(c, h + [p], t', e) {
      if e != p.csn {
        OtherLine(c, n, e, p.csn);
        OtherFresh(c, h, p, t, t', e);
      }
    }
  }

  lemma {:induction false} RunFresh(c: Config, h: seq<Packet>, n: nat)
    requires ValidConfig(c) && c.data >= 2 && OwnLines(c, h, n)
    ensures FreshLines(c, h, Run(c, h).0, n)
    ensures |Run(c, h).1| == |Pushed(c, h)|
  {
    if h != [] {
      var (g, p) := (Front(h), Last(h));
      assert h == g + [p];
      RunFresh(c, g, n);
      hide Step, FreshLine;
      FreshStep(c, g, p, Run(c, g).0, n);
    }
  }

  // ---- Pushing everything means completing in order ----

  /** An increasing list of numbers from 1 to n is no longer than n, and is all of them if it is that long. */
  lemma {:induction false} AscendingAll(s: seq<nat>, n: nat)
    requires Ascending(s) && forall x :: x in s ==> 1 <= x <= n
    ensures |s| <= n && (|s| == n ==> s == UpTo(n))
  {
    if s != [] {
      var (f, l) := (Front(s), Last(s));
      assert l in s;
      forall x | x in f ensures 1 <= x <= l - 1 {
        var i :| 0 <= i < |f| && f[i] == x;
        assert s[i] == x && s[i] in s;
      }
      AscendingAll(f, l - 1);
      assert s == f + [l];
    }
  }

  lemma {:induction false} PushedAscending(c: Config, h: seq<Packet>, n: nat)
    requires OwnLines(c, h, n)
    ensures Ascending(Pushed(c, h))
    ensures forall x :: x in Pushed(c, h) ==> 1 <= x <= n
    ensures forall x :: x in Pushed(c, h) ==> x <= Latest(Pushed(c, h))
  {
    if h != [] {
      PushedAscending(c, Front(h), n);
      var s := Pushed(c, Front(h));
      if PushedNow(c, Front(h), Last(h)) != [] {
        AscendingSnoc(s, Last(h).csn);
      }
    }
  }

  /** Either every completed chunk was pushed on completion, or one never is. */
  lemma {:induction false} PushedOrLost(c: Config, h: seq<Packet>)
    requires c.data >= 1
    ensures forall x :: x in Pushed(c, h) ==> x in Completed(c, h)
    ensures Pushed(c, h) == Completed(c, h) || exists e :: e in Completed(c, h) && e !in Pushed(c, h)
  {
    if h != [] {
      var (g, p) := (Front(h), Last(h));
      PushedOrLost(c, g);
      CompletedExact(c, g);
      if Pushed(c, g) != Completed(c, g) {
        var e :| e in Completed(c, g) && e !in Pushed(c, g);
        assert e in Completed(c, h) && e !in Pushed(c, h);
      } else if Completing(c, g, p) != [] && PushedNow(c, g, p) == [] {
        assert p.csn in Completed(c, h) && p.csn !in Pushed(c, h);
      }
    }
  }

  lemma {:induction false} CompletedRange(c: Config, h: seq<Packet>, n: nat)
    requires OwnLines(c, h, n)
    ensures forall x :: x in Completed(c, h) ==> 1 <= x <= n
  {
    if h != [] { CompletedRange(c, Front(h), n); }
  }

  /** n pushes out of n chunks happen only if the chunks complete in order. */
  lemma FullPush(c: Config, h: seq<Packet>, n: nat)
    requires c.data >= 1 && OwnLines(c, h, n) && |Pushed(c, h)| >= n
    ensures Completed(c, h) == UpTo(n)
  {
    PushedAscending(c, h, n);
    AscendingAll(Pushed(c, h), n);
    PushedOrLost(c, h);
    CompletedRange(c, h, n);
    forall e | e in Completed(c, h) ensures e in Pushed(c, h) {
      assert UpTo(n)[e - 1] == e;
    }
  }

  // ---- The stages after the assembler add nothing ----

  lemma {:induction false} RestoredBound(code: Code, vs: seq<Vector>)
    ensures |RestoreAll(code, vs)| <= |vs|
  {
    if vs != [] { RestoredBound(code, Front(vs)); }
  }

  lemma {:induction false} DrainBound(size: nat, s: Dispatcher.State, i: nat)
    requires Dispatcher.Shaped(size, s)
    ensures var (s', out) := Dispatcher.Drain(size, s, i);
      |out| + CountSome(s'.slots) == CountSome(s.slots)
    decreases s.first - i
  {
    var at := Rem(i + 1, size);
    if !(i >= s.first || s.slots[at].None? || s.slots[at].value.csn != s.awaiting) {
      CountSomeUpdate(s.slots, at, None);
      DrainBound(size, Dispatcher.Delivered(s, at), i + 1);
    }
  }

  lemma StepBound(size: nat, s: Dispatcher.State, x: ChunkV)
    requires Dispatcher.Shaped(size, s)
    ensures var (s', out) := Dispatcher.Step(size, s, x);
      |out| + CountSome(s'.slots) <= CountSome(s.slots) + 1
  {
    var at := Rem(x.csn, size);
    CountSomeUpdate(s.slots, at, Some(x));
    var b := Dispatcher.Before(size, s, x);
    DrainBound(size, b, if x.csn == s.awaiting || s.slots[at].None? then x.csn else s.slots[at].value.csn);
  }

  lemma {:induction false} DispatchedBound(size: nat, h: seq<ChunkV>)
    requires size >= 1
    ensures var (s, out) := Dispatcher.Run(size, h); |out| + CountSome(s.slots) <= |h|
  {
    if h == [] {
      CountSomeNone(Dispatcher.NoChunks(size));
    } else {
      hide Dispatcher.Step;
      DispatchedBound(size, Front(h));
      StepBound(size, Dispatcher.Run(size, Front(h)).0, Last(h));
    }
  }

  // ---- Exactly when everything is recovered ----

  /** Completing in order, with a line for each chunk, is arriving in turn. */
  lemma {:induction false} InOrderInTurn(c: Config, h: seq<Packet>, n: nat)
    requires ValidConfig(c) && c.data >= 1 && OwnLines(c, h, n) && Completed(c, h) <= UpTo(n)
    ensures AllInTurn(c, h)
  {
    if h != [] {
      var (g, p) := (Front(h), Last(h));
      assert Completed(c, g) <= Completed(c, h);
      InOrderInTurn(c, g, n);
      assert h[|h| - 1] == p;
      CompletedExact(c, g);
      forall e: nat | Open(c, g, e) && e % c.lines == p.csn % c.lines ensures e == p.csn {
        CountZero(g, e);
        var i :| 0 <= i < |g| && g[i].csn == e;
        assert h[i] == g[i];
        if e != p.csn { OtherLine(c, n, e, p.csn); }
      }
      if Count(g, p.csn) == c.data - 1 {
        var m := |Completed(c, g)|;
        assert Completed(c, h)[m] == p.csn;
        forall e: nat | 1 <= e < p.csn ensures Count(g, e) >= c.data {
          assert Completed(c, h)[e - 1] == UpTo(n)[e - 1] == e;
          assert Completed(c, g)[e - 1] == e;
          assert e in Completed(c, g);
        }
      }
    }
  }

  lemma ResultsBound(code: Code, c: Config, size: nat, h: seq<Packet>)
    requires ValidConfig(c) && size >= 1
    ensures |Recovered(code, c, size, h)| <= |Assembler.Run(c, h).1|
  {
    hide Assembler.Run, Dispatcher.Run, RestoreAll;
    var vs := Assembler.Run(c, h).1;
    RestoredBound(code, vs);
    DispatchedBound(size, RestoreAll(code, vs));
  }

  /** Packets of the encoder, for no more chunks than lines. */
  lemma GenuineOwnLines(code: Code, c: Config, blocks: seq<seq<byte>>, h: seq<Packet>)
    requires Usable(code) && Sized(code, blocks) && Genuine(code, blocks, h)
    requires c.total == code.total && |blocks| <= c.lines
    ensures OwnLines(c, h, |blocks|)
  {
    forall i | 0 <= i < |h| ensures 1 <= h[i].csn <= |blocks| && h[i].psn < c.total {
      assert IsEncoded(code, blocks, h[i]);
    }
  }

  lemma SameLines(c: Config, h: seq<Packet>, n: nat)
    requires OwnLines(c, h, n)
    ensures OwnLines(Effective(c), h, n)
  {
  }

  lemma OrderSuffices(code: Code, c: Config, size: nat, blocks: seq<seq<byte>>, h: seq<Packet>)
    requires Usable(code) && Sized(code, blocks) && c == LineConfig(code, c.lines)
    requires size >= 1 && c.lines >= 1 && OwnLines(c, h, |blocks|)
    requires Genuine(code, blocks, h) && Distinct(h) && Completed(Effective(c), h) == UpTo(|blocks|)
    ensures Recovered(code, c, size, h) == blocks
  {
    UsableTotal(code);
    var c' := Effective(c);
    SameLines(c, h, |blocks|);
    hide Usable, Genuine, Recovered, Distinct, Sized, Assembler.Run, Completed, AllInTurn, OpenLines, OwnLines;
    InOrderInTurn(c', h, |blocks|);
    ErasureTolerance(code, c, size, blocks, h);
    OrderedCompletion(c', h);
    RunEffective(c, h);
    assert blocks[..|blocks|] == blocks;
  }

  /** For streams of at most as many chunks as the assembler has lines, over any lossy, reordering,
      duplicate-free link: the decoder delivers all blocks in order if and only if the chunks reach
      their last needed packets in order. */
  lemma RecoveredExactly(code: Code, c: Config, size: nat, blocks: seq<seq<byte>>, h: seq<Packet>)
    requires Usable(code) && Sized(code, blocks) && c == LineConfig(code, c.lines)
    requires size >= 1 && 1 <= c.lines && |blocks| <= c.lines
    requires Genuine(code, blocks, h) && Distinct(h)
    ensures Recovered(code, c, size, h) == blocks <==> Completed(Effective(c), h) == UpTo(|blocks|)
  {
    UsableTotal(code);
    var n := |blocks|;
    GenuineOwnLines(code, c, blocks, h);
    hide Usable, Genuine, Recovered, Distinct, Sized, Assembler.Run, Completed, AllInTurn, OwnLines;
    if Completed(Effective(c), h) == UpTo(n) {
      OrderSuffices(code, c, size, blocks, h);
    }
    if Recovered(code, c, size, h) == blocks {
      ResultsBound(code, c, size, h);
      RunEffective(c, h);
      SameLines(c, h, n);
      RunFresh(Effective(c), h, n);
      FullPush(Effective(c), h, n);
    }
  }
}
