/** From blocks to blocks: encoder, interleaver, a link that loses and reorders, decoder. */
module EndToEnd {
  import opened Lists
  import opened Bytes
  import opened Packets
  import opened Chunks
  import opened ErasureCode
  import opened EncodeStage
  import opened Assembler
  import opened AssemblerCounts
  import opened AssemblerOrder
  import opened Decoder
  import Arith
  import Dispatcher
  import DispatcherOrder
  import Interleaver
  import Recovery

  /** The packet is one the encoder made from the blocks. */
  ghost predicate IsEncoded(code: Code, blocks: seq<seq<byte>>, p: Packet)
    requires Usable(code) && Sized(code, blocks)
  {
    1 <= p.csn <= |blocks| && p.psn < code.total &&
    p == ChunkPackets(code, p.csn, blocks[p.csn - 1])[p.psn]
  }

  ghost predicate Genuine(code: Code, blocks: seq<seq<byte>>, h: seq<Packet>)
    requires Usable(code) && Sized(code, blocks)
  {
    forall i :: 0 <= i < |h| ==> IsEncoded(code, blocks, h[i])
  }

  /** There are codes to which all of this applies. */
  lemma XorUsable(data: nat)
    requires 1 <= data < 65535
    ensures Usable(XorParity(data))
  {
    XorParityLawful(data);
  }

  function LineConfig(code: Code, lines: nat): Config { Config(code.data, code.total, lines) }

  /** How many packets of a chunk the assembler waits for: data, but never one alone. */
  function Needed(code: Code): nat { Max(2, code.data) }

  // ---- A pushed vector is restored to its block ----

  lemma {:induction false} PayloadCount(v: Vector)
    ensures CountSome(Payloads(v)) == CountSome(v)
  {
    if v != [] {
      assert Front(Payloads(v)) == Payloads(Front(v));
      PayloadCount(Front(v));
    }
  }

  lemma PayloadsView(code: Code, blocks: seq<seq<byte>>, v: Vector, csn: nat)
    requires Usable(code) && Sized(code, blocks) && 1 <= csn <= |blocks|
    requires |v| == code.total && PureVector(v, csn)
    requires forall i :: 0 <= i < |v| && v[i].Some? ==> IsEncoded(code, blocks, v[i].value)
    ensures ViewOf(Payloads(v), Codeword(code, csn, blocks[csn - 1]))
  {
    var w := Codeword(code, csn, blocks[csn - 1]);
    assert KeepsData(code, Shards(ChunkOf(code, csn, blocks[csn - 1]), code.total));
    UsableTotal(code);
    hide Usable, Codeword, KeepsData, Sized;
    forall i | 0 <= i < |v| && Payloads(v)[i].Some? ensures Payloads(v)[i].value == w[i] {
      assert IsEncoded(code, blocks, v[i].value);
    }
  }

  /** Any vector of at least data packets of one chunk, each at its number, gives back the block. */
  lemma VectorRestores(code: Code, blocks: seq<seq<byte>>, v: Vector, csn: nat)
    requires Usable(code) && Sized(code, blocks) && 1 <= csn <= |blocks|
    requires |v| == code.total && PureVector(v, csn) && CountSome(v) >= code.data
    requires forall i :: 0 <= i < |v| && v[i].Some? ==> IsEncoded(code, blocks, v[i].value)
    ensures Restore(code, v) == [ChunkOf(code, csn, blocks[csn - 1])]
  {
    var chunk := ChunkOf(code, csn, blocks[csn - 1]);
    var s := Shards(chunk, code.total);
    PayloadsView(code, blocks, v, csn);
    PayloadCount(v);
    assert Rebuilds(code, s, Payloads(v));
    ChunkRoundTrip(chunk, code.total);
  }

  /** The blocks as numbered chunks. */
  function ChunksOf(code: Code, blocks: seq<seq<byte>>): (cs: seq<ChunkV>)
    requires |blocks| < TWO64 - 1
    ensures |cs| == |blocks| && forall i :: 0 <= i < |cs| ==> cs[i] == ChunkOf(code, i + 1, blocks[i])
  {
    seq(|blocks|, i requires 0 <= i < |blocks| => ChunkOf(code, i + 1, blocks[i]))
  }

  /** Numbered chunks go straight through the dispatcher. */
  lemma DispatchesAll(code: Code, size: nat, blocks: seq<seq<byte>>)
    requires size >= 1 && |blocks| < TWO64 - 1
    ensures Dispatcher.Results(Dispatcher.Run(size, ChunksOf(code, blocks)).1) == blocks
  {
    DispatcherOrder.StraightThrough(size, 0, ChunksOf(code, blocks));
  }

  lemma GenuineBounds(code: Code, c: Config, blocks: seq<seq<byte>>, h: seq<Packet>)
    requires Usable(code) && Sized(code, blocks) && c.total == code.total && Genuine(code, blocks, h)
    ensures InBounds(c, h)
  {
    forall i | 0 <= i < |h| ensures h[i].psn < c.total { assert IsEncoded(code, blocks, h[i]); }
  }

  lemma UsableTotal(code: Code)
    requires Usable(code)
    ensures 1 <= code.data <= code.total && 2 <= code.total < 65536
  {
  }

  lemma GenuineIn(code: Code, blocks: seq<seq<byte>>, h: seq<Packet>, p: Packet)
    requires Usable(code) && Sized(code, blocks) && Genuine(code, blocks, h) && p in h
    ensures IsEncoded(code, blocks, p)
  {
    hide IsEncoded, Usable;
    var j :| 0 <= j < |h| && h[j] == p;
  }

  // ---- Whatever arrives, what comes out is what went in ----

  ghost predicate BlockNumbers(s: seq<nat>, n: nat) {
    forall i :: 0 <= i < |s| ==> 1 <= s[i] <= n
  }

  /** The blocks with the given numbers, as chunks. */
  function Chosen(code: Code, blocks: seq<seq<byte>>, s: seq<nat>): (cs: seq<ChunkV>)
    requires |blocks| < TWO64 - 1 && BlockNumbers(s, |blocks|)
    ensures |cs| == |s| && forall i :: 0 <= i < |s| ==> cs[i] == ChunkOf(code, s[i], blocks[s[i] - 1])
  {
    seq(|s|, i requires 0 <= i < |s| => ChunkOf(code, s[i], blocks[s[i] - 1]))
  }

  /** A pushed vector is made of arrivals of the chunk whose packet completed it. */
  lemma PushedVector(c: Config, h: seq<Packet>, v: Vector)
    requires ValidConfig(c) && h != [] && InBounds(c, h)
    requires v in Step(c, Run(c, Front(h)).0, Last(h)).1
    ensures |v| == c.total && PureVector(v, Last(h).csn)
    ensures forall i :: 0 <= i < |v| && v[i].Some? ==> v[i].value in h
  {
    var (g, p) := (Front(h), Last(h));
    var t := Run(c, g).0;
    assert h == g + [p];
    RunSlots(c, g);
    RunPure(c, g);
    PurityKept(c, t, p);
    hide Run;
    VectorFrom(c, t, g, p, v);
  }

  /** Without duplicates it holds enough of them. */
  lemma PushedEnough(c: Config, h: seq<Packet>, v: Vector)
    requires ValidConfig(c) && h != [] && InBounds(c, h) && Distinct(h)
    requires v in Step(c, Run(c, Front(h)).0, Last(h)).1
    ensures CountSome(v) >= c.data
  {
    RunExact(c, h);
    hide Step;
    assert v in Run(c, h).1;
  }

  lemma VectorFrom(c: Config, t: Table, g: seq<Packet>, p: Packet, v: Vector)
    requires ValidConfig(c) && Shaped(c, t.rows) && SlotsFrom(c, t, g) && p.psn < c.total
    requires v in Step(c, t, p).1
    ensures |v| == c.total && forall i :: 0 <= i < |v| && v[i].Some? ==> v[i].value in g + [p]
  {
    var row := t.rows[p.csn % c.lines];
    assert v == row.slots[p.psn := Some(p)];
    forall i | 0 <= i < |v| && v[i].Some? ensures v[i].value in g + [p] {
      assert v[i] == Some(p) || v[i] == row.slots[i];
    }
  }

  lemma LastNumber(code: Code, blocks: seq<seq<byte>>, h: seq<Packet>)
    requires Usable(code) && Sized(code, blocks) && Genuine(code, blocks, h) && h != []
    ensures 1 <= Last(h).csn <= |blocks|
  {
    hide Usable, Sized, ChunkPackets;
    assert IsEncoded(code, blocks, h[|h| - 1]);
  }

  lemma GenuineVector(code: Code, blocks: seq<seq<byte>>, h: seq<Packet>, v: Vector)
    requires Usable(code) && Sized(code, blocks) && Genuine(code, blocks, h)
    requires forall i :: 0 <= i < |v| && v[i].Some? ==> v[i].value in h
    ensures forall i :: 0 <= i < |v| && v[i].Some? ==> IsEncoded(code, blocks, v[i].value)
  {
    hide Usable, Genuine, IsEncoded, Sized;
    forall i | 0 <= i < |v| && v[i].Some? ensures IsEncoded(code, blocks, v[i].value) {
      GenuineIn(code, blocks, h, v[i].value);
    }
  }

  /** So does any vector made of data arrivals of a chunk. */
  lemma ArrivedRestores(code: Code, blocks: seq<seq<byte>>, h: seq<Packet>, v: Vector, csn: nat)
    requires Usable(code) && Sized(code, blocks) && Genuine(code, blocks, h) && 1 <= csn <= |blocks|
    requires |v| == code.total && PureVector(v, csn) && CountSome(v) >= code.data
    requires forall i :: 0 <= i < |v| && v[i].Some? ==> v[i].value in h
    ensures Restore(code, v) == [ChunkOf(code, csn, blocks[csn - 1])]
  {
    hide Usable, Sized, Genuine, IsEncoded, Restore, PureVector, CountSome;
    GenuineVector(code, blocks, h, v);
    VectorRestores(code, blocks, v, csn);
  }

  /** A pushed vector restores to the block of the chunk that was completed. */
  lemma PushRestores(code: Code, c: Config, blocks: seq<seq<byte>>, h: seq<Packet>, v: Vector, csn: nat)
    requires Usable(code) && Sized(code, blocks) && c == LineConfig(code, c.lines) && ValidConfig(c)
    requires h != [] && Genuine(code, blocks, h) && Distinct(h) && csn == Last(h).csn
    requires v in Step(c, Run(c, Front(h)).0, Last(h)).1
    ensures 1 <= csn <= |blocks|
    ensures Restore(code, v) == [ChunkOf(code, csn, blocks[csn - 1])]
  {
    GenuineBounds(code, c, blocks, h);
    LastNumber(code, blocks, h);
    PushedVector(c, h, v);
    PushedEnough(c, h, v);
    hide *;
    ArrivedRestores(code, blocks, h, v, csn);
  }

  lemma GenuineFront(code: Code, blocks: seq<seq<byte>>, h: seq<Packet>)
    requires Usable(code) && Sized(code, blocks) && Genuine(code, blocks, h) && Distinct(h) && h != []
    ensures Genuine(code, blocks, Front(h)) && Distinct(Front(h))
  {
    hide IsEncoded, Usable;
  }

  /** Over every duplicate-free link, whatever it loses and however it reorders, the restorer sends
      on exactly the blocks of the chunks the assembler pushed, as the encoder was given them. */
  lemma {:induction false} RestoredAre(code: Code, c: Config, blocks: seq<seq<byte>>, h: seq<Packet>)
    requires Usable(code) && Sized(code, blocks) && c == LineConfig(code, c.lines) && ValidConfig(c)
    requires Genuine(code, blocks, h) && Distinct(h)
    ensures BlockNumbers(PushOrder(c, h), |blocks|)
    ensures RestoreAll(code, Run(c, h).1) == Chosen(code, blocks, PushOrder(c, h))
  {
    hide Restore, Usable, Genuine, Distinct, Step;
    if h != [] {
      var g := Front(h);
      GenuineFront(code, blocks, h);
      RestoredAre(code, c, blocks, g);
      var (vs, more) := (Run(c, g).1, Step(c, Run(c, g).0, Last(h)).1);
      assert Run(c, h).1 == vs + more;
      PushOrderNext(c, h);
      hide Run, PushOrder;
      if more == [] {
        assert vs + more == vs && PushOrder(c, h) == PushOrder(c, g);
      } else {
        PushRestores(code, c, blocks, h, more[0], Last(h).csn);
        assert more == [more[0]] && Front(vs + more) == vs;
      }
    }
  }

  // ---- Erasure tolerance ----

  /** What the assembler, the restorer and the dispatcher make of arriving packets. */
  function Recovered(code: Code, c: Config, size: nat, h: seq<Packet>): seq<seq<byte>>
    requires ValidConfig(c) && size >= 1
  {
    Dispatcher.Results(Dispatcher.Run(size, RestoreAll(code, Assembler.Run(c, h).1)).1)
  }

  /** A result is the data of a chunk that was dispatched. */
  lemma ResultFrom(size: nat, cs: seq<ChunkV>, x: seq<byte>) returns (i: nat)
    requires size >= 1 && x in Dispatcher.Results(Dispatcher.Run(size, cs).1)
    ensures i < |cs| && cs[i].data == x
  {
    hide Dispatcher.Run;
    var out := Dispatcher.Run(size, cs).1;
    var j :| 0 <= j < |out| && out[j].data == x;
    Dispatcher.DeliveredArrived(size, cs, out[j]);
    i :| i < |cs| && cs[i] == out[j];
  }

  /** The chunk is one the encoder made from the blocks. */
  ghost predicate IsChunk(code: Code, blocks: seq<seq<byte>>, x: ChunkV)
    requires |blocks| < TWO64 - 1
  {
    1 <= x.csn <= |blocks| && x == ChunkOf(code, x.csn, blocks[x.csn - 1])
  }

  /** Too few packets restore to nothing. */
  lemma TooFewFail(code: Code, v: Vector)
    requires Usable(code) && |v| == code.total && CountSome(v) < code.data
    ensures Restore(code, v) == []
  {
    PayloadCount(v);
    assert NeedsData(code, Payloads(v));
  }

  /** With duplicates a vector may be pushed too early; it then restores to nothing. */
  lemma RestoresAtMost(code: Code, c: Config, blocks: seq<seq<byte>>, h: seq<Packet>, v: Vector, csn: nat)
    requires Usable(code) && Sized(code, blocks) && c == LineConfig(code, c.lines) && ValidConfig(c)
    requires h != [] && Genuine(code, blocks, h) && csn == Last(h).csn
    requires v in Step(c, Run(c, Front(h)).0, Last(h)).1
    ensures 1 <= csn <= |blocks|
    ensures Restore(code, v) == [] || Restore(code, v) == [ChunkOf(code, csn, blocks[csn - 1])]
  {
    GenuineBounds(code, c, blocks, h);
    LastNumber(code, blocks, h);
    PushedVector(c, h, v);
    hide *;
    if CountSome(v) >= code.data {
      ArrivedRestores(code, blocks, h, v, csn);
    } else {
      TooFewFail(code, v);
    }
  }

  /** Over every link that delivers packets of the encoder, as often and in whatever order it likes,
      the restorer sends on nothing but chunks of the encoder. */
  lemma {:induction false} RestoredGenuine(code: Code, c: Config, blocks: seq<seq<byte>>, h: seq<Packet>)
    requires Usable(code) && Sized(code, blocks) && c == LineConfig(code, c.lines) && ValidConfig(c)
    requires Genuine(code, blocks, h)
    ensures forall x :: x in RestoreAll(code, Run(c, h).1) ==> IsChunk(code, blocks, x)
  {
    hide Restore, Usable, Step, IsEncoded;
    if h != [] {
      var g := Front(h);
      RestoredGenuine(code, c, blocks, g);
      var (vs, more) := (Run(c, g).1, Step(c, Run(c, g).0, Last(h)).1);
      assert Run(c, h).1 == vs + more;
      hide Run, Genuine;
      if more == [] {
        assert vs + more == vs;
      } else {
        RestoresAtMost(code, c, blocks, h, more[0], Last(h).csn);
        assert more == [more[0]] && Front(vs + more) == vs;
      }
    }
  }

  /** Nothing is made up: over every link that delivers packets of the encoder, however it loses,
      repeats and reorders them, all that comes out is blocks of the encoder. */
  lemma NothingMadeUp(code: Code, c: Config, size: nat, blocks: seq<seq<byte>>, h: seq<Packet>)
    requires Usable(code) && Sized(code, blocks) && c == LineConfig(code, c.lines) && c.lines >= 1
    requires size >= 1 && Genuine(code, blocks, h)
    ensures forall x :: x in Recovered(code, c, size, h) ==> x in blocks
  {
    UsableTotal(code);
    RestoredGenuine(code, c, blocks, h);
    hide RestoreAll, Usable, Genuine, Run, Dispatcher.Run, Dispatcher.Results, IsChunk;
    forall x | x in Recovered(code, c, size, h) ensures x in blocks {
      var cs := RestoreAll(code, Run(c, h).1);
      var i := ResultFrom(size, cs, x);
      assert cs[i] in cs;
      ChunkData(code, blocks, cs[i]);
    }
  }

  lemma ChunkData(code: Code, blocks: seq<seq<byte>>, x: ChunkV)
    requires |blocks| < TWO64 - 1 && IsChunk(code, blocks, x)
    ensures x.data in blocks
  {
  }

  lemma CompleteAre(c: Config, h: seq<Packet>, t: Table)
    requires ValidConfig(c) && Shaped(c, t.rows) && OpenLines(c, h, t)
    ensures forall e: nat :: Count(h, e) >= c.data <==> 1 <= e <= t.last
  {
  }

  lemma ChosenFirst(code: Code, blocks: seq<seq<byte>>, m: nat)
    requires |blocks| < TWO64 - 1 && BlockNumbers(UpTo(m), |blocks|)
    ensures m <= |blocks| && Chosen(code, blocks, UpTo(m)) == ChunksOf(code, blocks[..m])
  {
    if m > 0 { assert UpTo(m)[m - 1] == m; }
  }

  /** Over any lossy, reordering, duplicate-free link on which chunks complete in order and open
      chunks do not share a line, the decoder has at every moment delivered exactly the blocks of
      the chunks that have the packets they need, in order. Surplus packets may arrive at any time. */
  lemma ErasureTolerance(code: Code, c: Config, size: nat, blocks: seq<seq<byte>>, h: seq<Packet>)
    requires Usable(code) && Sized(code, blocks) && c == LineConfig(code, c.lines) && c.lines >= 1
    requires size >= 1
    requires Genuine(code, blocks, h) && Distinct(h) && ValidConfig(Effective(c)) && AllInTurn(Effective(c), h)
    ensures var m := Assembler.Run(c, h).0.last;
      && m <= |blocks| && Recovered(code, c, size, h) == blocks[..m]
      && RestoreAll(code, Assembler.Run(c, h).1) == ChunksOf(code, blocks[..m])
      && forall e: nat :: Count(h, e) >= Needed(code) <==> 1 <= e <= m
  {
    UsableTotal(code);
    var c' := Effective(c);
    RunEffective(c, h);
    PushOrderEffective(c, h);
    OrderedCompletion(c', h);
    RestoredAre(code, c, blocks, h);
    var m := Assembler.Run(c, h).0.last;
    hide Restore, RestoreAll, Usable, Sized, Genuine, AllInTurn, Distinct, Assembler.Run, Completed, PushOrder,
      OpenLines;
    assert forall e: nat :: Count(h, e) >= Needed(code) <==> 1 <= e <= m by {
      CompleteAre(c', h, Assembler.Run(c', h).0);
    }
    hide Count, Expected;
    ChosenFirst(code, blocks, m);
    DispatchesAll(code, size, blocks[..m]);
  }

  // ---- Behind the interleaver ----

  /** The output of the interleaver is made of packets of the encoder. */
  lemma StreamGenuine(code: Code, chunks: nat, blocks: seq<seq<byte>>)
    requires Usable(code) && Sized(code, blocks) && chunks >= 1
    ensures Genuine(code, blocks, Interleaver.Run(chunks, code.total, Encode(code, blocks)).1)
  {
    UsableTotal(code);
    hide Interleaver.At, Interleaver.Run, Usable, ChunkPackets, Encode, IsEncoded;
    var out := Interleaver.Run(chunks, code.total, Encode(code, blocks)).1;
    forall j | 0 <= j < |out| ensures IsEncoded(code, blocks, out[j]) {
      PlaceGenuine(code, chunks, blocks, j);
    }
  }

  lemma PlaceGenuine(code: Code, chunks: nat, blocks: seq<seq<byte>>, j: nat)
    requires Usable(code) && Sized(code, blocks) && chunks >= 1
    requires j < |Interleaver.Run(chunks, code.total, Encode(code, blocks)).1|
    ensures IsEncoded(code, blocks, Interleaver.Run(chunks, code.total, Encode(code, blocks)).1[j])
  {
    UsableTotal(code);
    hide Interleaver.At, Interleaver.Run, Usable, ChunkPackets, Encode, IsEncoded, Sized, Capacity;
    var i, r := PlaceOf(chunks, code.total, Encode(code, blocks), j);
    EncodedIs(code, blocks, i, r);
  }

  lemma PlaceOf(chunks: nat, total: nat, h: seq<Packet>, j: nat) returns (i: nat, r: nat)
    requires chunks >= 1 && total >= 1 && j < |Interleaver.Run(chunks, total, h).1|
    ensures r < total && 0 <= i * total + r < |h| && Interleaver.Run(chunks, total, h).1[j] == h[i * total + r]
  {
    hide Interleaver.At, Interleaver.Run;
    var p := Interleaver.At(chunks, total, j);
    Interleaver.OutAt(chunks, total, h, j);
    i, r := p.b * chunks + p.q, p.r;
  }

  lemma EncodedIs(code: Code, blocks: seq<seq<byte>>, i: nat, r: nat)
    requires Usable(code) && Sized(code, blocks) && r < code.total
    requires 0 <= i * code.total + r < |Encode(code, blocks)|
    ensures var p := Encode(code, blocks)[i * code.total + r];
      IsEncoded(code, blocks, p) && p.csn == i + 1 && p.psn == r
  {
    UsableTotal(code);
    hide Usable, Encode, IsEncoded, ChunkPackets, Sized;
    EncodeLength(code, blocks);
    RowInRange(i, r, code.total, |blocks|);
    EncodeAt(code, blocks, i, r);
    ChunkPacketIs(code, blocks, i, r);
  }

  lemma ChunkPacketIs(code: Code, blocks: seq<seq<byte>>, i: nat, r: nat)
    requires Usable(code) && Sized(code, blocks) && i < |blocks| && r < code.total
    ensures var p := ChunkPackets(code, i + 1, blocks[i])[r];
      IsEncoded(code, blocks, p) && p.csn == i + 1 && p.psn == r
  {
    hide Usable;
  }

  /** The interleaver sends the chunks of the encoder row by row. */
  lemma StreamRows(code: Code, chunks: nat, blocks: seq<seq<byte>>)
    requires Usable(code) && Sized(code, blocks) && chunks >= 1
    ensures Interleaver.RowByRow(chunks, code.total, Interleaver.Run(chunks, code.total, Encode(code, blocks)).1)
  {
    UsableTotal(code);
    hide Interleaver.At, Interleaver.Run, Interleaver.RowByRow, Usable, ChunkPackets, Encode, IsEncoded;
    var h := Encode(code, blocks);
    forall i: nat, r: nat | r < code.total ensures Interleaver.EncodedAt(code.total, h, i, r) {
      if 0 <= i * code.total + r < |h| {
        EncodedIs(code, blocks, i, r);
      }
    }
    Interleaver.OutRowByRow(chunks, code.total, h);
  }

  lemma RowInRange(i: nat, r: nat, total: nat, n: nat)
    requires i * total + r < n * total && total >= 1
    ensures i < n
  {
    if i >= n { Arith.MulMono(n, i, total); }
  }

  /** The blocks fill n batches of the interleaver, and not n + 1. */
  ghost predicate Fills(blocks: seq<seq<byte>>, chunks: nat, n: nat) {
    n * chunks <= |blocks| < n * chunks + chunks
  }

  /** The interleaver sends the batches that are full. */
  lemma StreamLength(code: Code, chunks: nat, blocks: seq<seq<byte>>, n: nat)
    requires Usable(code) && Sized(code, blocks) && chunks >= 1 && Fills(blocks, chunks, n)
    ensures |Interleaver.Run(chunks, code.total, Encode(code, blocks)).1| == n * (chunks * code.total)
  {
    UsableTotal(code);
    hide Interleaver.Run, Usable, Encode, Interleaver.InBatch;
    var h := Encode(code, blocks);
    EncodeLength(code, blocks);
    var m := Interleaver.RunBatches(chunks, code.total, h);
    FullBatches(|blocks|, chunks, code.total, m);
    Arith.ModUnique(|blocks|, chunks, n, |blocks| - n * chunks);
  }

  lemma FullBatches(x: nat, chunks: nat, total: nat, n: nat)
    requires chunks >= 1 && total >= 1
    requires n * (chunks * total) <= x * total < n * (chunks * total) + chunks * total
    ensures n == x / chunks
  {
    assert n * (chunks * total) == (n * chunks) * total;
    assert n * (chunks * total) + chunks * total == (n * chunks + chunks) * total;
    if x < n * chunks {
      Arith.MulMono(x + 1, n * chunks, total);
      Arith.MulSucc(x, total);
    }
    if x >= n * chunks + chunks {
      Arith.MulMono(n * chunks + chunks, x, total);
    }
    Arith.ModUnique(x, chunks, n, x - n * chunks);
  }

  lemma StreamDistinct(chunks: nat, total: nat, out: seq<Packet>)
    requires chunks >= 1 && total >= 1 && Interleaver.RowByRow(chunks, total, out)
    ensures Distinct(out)
  {
    hide Interleaver.At;
    forall i, j | 0 <= i < j < |out| ensures out[i].csn != out[j].csn || out[i].psn != out[j].psn {
      PlacesApart(chunks, total, i, j);
    }
  }

  lemma PlacesApart(chunks: nat, total: nat, i: nat, j: nat)
    requires chunks >= 1 && total >= 1 && i < j
    ensures var (a, b) := (Interleaver.At(chunks, total, i), Interleaver.At(chunks, total, j));
      Interleaver.CsnAt(chunks, a) != Interleaver.CsnAt(chunks, b) || a.r != b.r
  {
    hide Interleaver.At;
    var (a, b) := (Interleaver.At(chunks, total, i), Interleaver.At(chunks, total, j));
    Interleaver.AtIndex(chunks, total, i);
    Interleaver.AtIndex(chunks, total, j);
    Recovery.OwnBatch(chunks, a);
    Recovery.OwnBatch(chunks, b);
  }

  lemma {:induction false} DeliveredFrom(keeps: Recovery.Loss, out: seq<Packet>)
    ensures forall x :: x in Recovery.Delivered(keeps, out) ==> x in out
  {
    if out != [] {
      DeliveredFrom(keeps, Front(out));
      assert out == Front(out) + [Last(out)];
    }
  }

  lemma {:induction false} DeliveredDistinct(keeps: Recovery.Loss, out: seq<Packet>)
    requires Distinct(out)
    ensures Distinct(Recovery.Delivered(keeps, out))
  {
    if out != [] {
      var (front, p) := (Front(out), Last(out));
      DeliveredDistinct(keeps, front);
      DeliveredFrom(keeps, front);
      var h := Recovery.Delivered(keeps, front);
      forall i | 0 <= i < |h| ensures h[i].csn != p.csn || h[i].psn != p.psn {
        assert h[i] in front;
        var j :| 0 <= j < |front| && front[j] == h[i];
        assert out[j] == h[i] && out[|out| - 1] == p;
      }
    }
  }

  lemma DeliveredGenuine(code: Code, blocks: seq<seq<byte>>, keeps: Recovery.Loss, out: seq<Packet>)
    requires Usable(code) && Sized(code, blocks) && Genuine(code, blocks, out)
    ensures Genuine(code, blocks, Recovery.Delivered(keeps, out))
  {
    DeliveredFrom(keeps, out);
    var h := Recovery.Delivered(keeps, out);
    forall i | 0 <= i < |h| ensures IsEncoded(code, blocks, h[i]) {
      assert h[i] in h;
      var j :| 0 <= j < |out| && out[j] == h[i];
    }
  }

  /** What an in-order link with losses delivers of the interleaved stream of the blocks. */
  function Arrivals(code: Code, chunks: nat, blocks: seq<seq<byte>>, keeps: Recovery.Loss): seq<Packet>
    requires Usable(code) && Sized(code, blocks) && chunks >= 1
  {
    Recovery.Delivered(keeps, Interleaver.Run(chunks, code.total, Encode(code, blocks)).1)
  }

  /** Any loss that leaves each chunk the packets it needs and keeps the rows of every batch in
      order is made good: the decoder delivers exactly the blocks of the full batches, in order. */
  lemma LossesMadeGood(code: Code, c: Config, size: nat, chunks: nat, blocks: seq<seq<byte>>, n: nat,
                       keeps: Recovery.Loss)
    requires Usable(code) && Sized(code, blocks) && c == LineConfig(code, c.lines)
    requires size >= 1 && 1 <= chunks <= c.lines && Fills(blocks, chunks, n)
    requires Recovery.EnoughArrive(keeps, Needed(code), code.total, n * chunks)
    requires Recovery.RowsInOrder(keeps, Needed(code), code.total, chunks, n * chunks)
    ensures 0 <= n * chunks <= |blocks|
    ensures Recovered(code, c, size, Arrivals(code, chunks, blocks, keeps)) == blocks[..n * chunks]
  {
    UsableTotal(code);
    hide Usable, Genuine, Recovered, Distinct, AllInTurn, Arrivals, Sized, Recovery.EnoughArrive, Recovery.RowsInOrder;
    var h := Arrivals(code, chunks, blocks, keeps);
    ArrivalsFit(code, c, chunks, blocks, n, keeps);
    ErasureTolerance(code, c, size, blocks, h);
    ArrivalsComplete(code, c, chunks, blocks, n, keeps, Assembler.Run(c, h).0.last);
  }

  /** The arrivals meet the conditions of erasure tolerance. */
  lemma ArrivalsFit(code: Code, c: Config, chunks: nat, blocks: seq<seq<byte>>, n: nat, keeps: Recovery.Loss)
    requires Usable(code) && Sized(code, blocks) && c == LineConfig(code, c.lines)
    requires 1 <= chunks <= c.lines && Fills(blocks, chunks, n)
    requires Recovery.EnoughArrive(keeps, Needed(code), code.total, n * chunks)
    requires Recovery.RowsInOrder(keeps, Needed(code), code.total, chunks, n * chunks)
    ensures var h := Arrivals(code, chunks, blocks, keeps);
      Genuine(code, blocks, h) && Distinct(h) && ValidConfig(Effective(c)) && AllInTurn(Effective(c), h)
  {
    UsableTotal(code);
    hide Usable, ChunkPackets, Encode, Interleaver.Run, Interleaver.RowByRow, Genuine, Recovery.Delivered,
      Recovery.EnoughArrive, Recovery.RowsInOrder, Distinct, AllInTurn, Sized, Fills;
    var out := Interleaver.Run(chunks, code.total, Encode(code, blocks)).1;
    StreamGenuine(code, chunks, blocks);
    StreamRows(code, chunks, blocks);
    StreamLength(code, chunks, blocks, n);
    StreamDistinct(chunks, code.total, out);
    DeliveredGenuine(code, blocks, keeps, out);
    DeliveredDistinct(keeps, out);
    Recovery.LossesInTurn(Effective(c), keeps, chunks, out, n);
  }

  /** Every chunk of the full batches arrives often enough. */
  lemma ArrivalsComplete(code: Code, c: Config, chunks: nat, blocks: seq<seq<byte>>, n: nat,
                         keeps: Recovery.Loss, m: nat)
    requires Usable(code) && Sized(code, blocks) && c == LineConfig(code, c.lines)
    requires c.lines >= 1 && chunks >= 1 && Fills(blocks, chunks, n)
    requires Recovery.EnoughArrive(keeps, Needed(code), code.total, n * chunks)
    requires forall e: nat :: Count(Arrivals(code, chunks, blocks, keeps), e) >= Needed(code) <==> 1 <= e <= m
    ensures m == n * chunks
  {
    UsableTotal(code);
    hide Usable, Encode, Interleaver.Run, Interleaver.RowByRow, Recovery.Delivered, Recovery.EnoughArrive, Sized, Fills;
    var out := Interleaver.Run(chunks, code.total, Encode(code, blocks)).1;
    StreamRows(code, chunks, blocks);
    StreamLength(code, chunks, blocks, n);
    assert Arrivals(code, chunks, blocks, keeps) == Recovery.Delivered(keeps, out);
    AllComplete(Effective(c), keeps, chunks, out, n, m);
  }

  lemma AllComplete(c: Config, keeps: Recovery.Loss, chunks: nat, out: seq<Packet>, n: nat, m: nat)
    requires ValidConfig(c) && chunks >= 1 && Interleaver.RowByRow(chunks, c.total, out)
    requires |out| == n * (chunks * c.total)
    requires Recovery.EnoughArrive(keeps, c.data, c.total, n * chunks)
    requires forall e: nat :: Count(Recovery.Delivered(keeps, out), e) >= c.data <==> 1 <= e <= m
    ensures m == n * chunks
  {
    hide Recovery.Delivered, Interleaver.RowByRow, Recovery.EnoughArrive;
    var h := Recovery.Delivered(keeps, out);
    Arith.MulMono(0, n, chunks);
    var k := n * chunks;
    Recovery.LossesComplete(c, keeps, chunks, out, n, m);
    Recovery.LossesComplete(c, keeps, chunks, out, n, k);
    assert Count(h, m) >= c.data <==> 1 <= m <= m;
    assert Count(h, k) >= c.data <==> 1 <= k <= m;
  }
}
