/** The two pipelines of the codec as rows of stages, and what each computes in sequence. */
module Codec {
  import opened Lists
  import opened Bytes
  import opened Packets
  import opened Chunks
  import opened ErasureCode
  import opened Pipeline
  import Machines
  import Aggregator
  import EncodeStage
  import Interleaver
  import Assembler
  import Dispatcher
  import Decoder

  /** What travels on the channels. */
  datatype Msg =
    | Raw(bytes: seq<byte>) | Tick
    | Pkt(packet: Packet)
    | Vec(vector: Assembler.Vector)
    | Chk(chunk: ChunkV)

  /** What a goroutine keeps between messages. */
  datatype Local =
    | Nothing
    | Lines(table: Assembler.Table)
    | Reorder(state: Dispatcher.State)
    | Pending(bytes: seq<byte>)
    | Counter(csn: nat)
    | Batch(packets: seq<Packet>)

  function Raws(bs: seq<seq<byte>>): (ms: seq<Msg>)
    ensures |ms| == |bs| && forall i :: 0 <= i < |bs| ==> ms[i] == Raw(bs[i])
  {
    seq(|bs|, i requires 0 <= i < |bs| => Raw(bs[i]))
  }

  function Pkts(ps: seq<Packet>): (ms: seq<Msg>)
    ensures |ms| == |ps| && forall i :: 0 <= i < |ps| ==> ms[i] == Pkt(ps[i])
  {
    seq(|ps|, i requires 0 <= i < |ps| => Pkt(ps[i]))
  }

  function Vecs(vs: seq<Assembler.Vector>): (ms: seq<Msg>)
    ensures |ms| == |vs| && forall i :: 0 <= i < |vs| ==> ms[i] == Vec(vs[i])
  {
    seq(|vs|, i requires 0 <= i < |vs| => Vec(vs[i]))
  }

  function Chks(cs: seq<ChunkV>): (ms: seq<Msg>)
    ensures |ms| == |cs| && forall i :: 0 <= i < |cs| ==> ms[i] == Chk(cs[i])
  {
    seq(|cs|, i requires 0 <= i < |cs| => Chk(cs[i]))
  }

  lemma RawsAppend(a: seq<seq<byte>>, b: seq<seq<byte>>)
    ensures Raws(a + b) == Raws(a) + Raws(b)
  {
  }

  lemma PktsAppend(a: seq<Packet>, b: seq<Packet>)
    ensures Pkts(a + b) == Pkts(a) + Pkts(b)
  {
  }

  lemma VecsAppend(a: seq<Assembler.Vector>, b: seq<Assembler.Vector>)
    ensures Vecs(a + b) == Vecs(a) + Vecs(b)
  {
  }

  lemma ChksAppend(a: seq<ChunkV>, b: seq<ChunkV>)
    ensures Chks(a + b) == Chks(a) + Chks(b)
  {
  }

  // ---- Decoder.Decode: decode, assembly, restore, dispatch ----

  ghost function DecodeStep(digest: Digest): Machines.Step<Local, Msg, Msg> {
    (s: Local, m: Msg) => if m.Raw? then (s, Pkts(Decoder.Accept(digest, m.bytes))) else (s, [])
  }

  ghost function AssemblyStep(c: Assembler.Config): Machines.Step<Local, Msg, Msg> {
    (s: Local, m: Msg) =>
      if m.Pkt? && s.Lines? && Assembler.ValidConfig(c) && Assembler.Shaped(c, s.table.rows)
      then var (t, out) := Assembler.Step(c, s.table, m.packet); (Lines(t), Vecs(out))
      else (s, [])
  }

  ghost function RestoreStep(code: Code): Machines.Step<Local, Msg, Msg> {
    (s: Local, m: Msg) => if m.Vec? then (s, Chks(Decoder.Restore(code, m.vector))) else (s, [])
  }

  ghost function DispatchStep(size: nat): Machines.Step<Local, Msg, Msg> {
    (s: Local, m: Msg) =>
      if m.Chk? && s.Reorder? && Dispatcher.Shaped(size, s.state)
      then var (t, out) := Dispatcher.Step(size, s.state, m.chunk); (Reorder(t), Raws(Dispatcher.Results(out)))
      else (s, [])
  }

  ghost function DecoderStages(digest: Digest, c: Assembler.Config, code: Code, size: nat): seq<Stage<Local, Msg>> {
    [Stage(Nothing, DecodeStep(digest)),
     Stage(Lines(Assembler.EmptyTable(c)), AssemblyStep(c)),
     Stage(Nothing, RestoreStep(code)),
     Stage(Reorder(Dispatcher.Idle(size, 0)), DispatchStep(size))]
  }

  /** Each stage passes its messages to its step, and what that sends on. */
  lemma DecoderStagesStep(digest: Digest, c: Assembler.Config, code: Code, size: nat, b: seq<byte>, p: Packet,
                          v: Assembler.Vector, x: ChunkV, t: Assembler.Table, s: Dispatcher.State)
    requires Assembler.ValidConfig(c) && Assembler.Shaped(c, t.rows) && Dispatcher.Shaped(size, s)
    ensures var st := DecoderStages(digest, c, code, size);
      && |st| == 4
      && st[0].step(Nothing, Raw(b)) == (Nothing, Pkts(Decoder.Accept(digest, b)))
      && st[1].step(Lines(t), Pkt(p)) ==
        (Lines(Assembler.Step(c, t, p).0), Vecs(Assembler.Step(c, t, p).1))
      && st[2].step(Nothing, Vec(v)) == (Nothing, Chks(Decoder.Restore(code, v)))
      && st[3].step(Reorder(s), Chk(x)) ==
        (Reorder(Dispatcher.Step(size, s, x).0), Raws(Dispatcher.Results(Dispatcher.Step(size, s, x).1)))
  {
    OneChunk(size, s, x);
    hide Assembler.Step, Dispatcher.Step, DispatchStep, Decoder.Accept, Decoder.Restore;
  }

  lemma {:induction false} DecodeRuns(digest: Digest, h: seq<seq<byte>>)
    ensures Machines.Run(DecodeStep(digest), Nothing, Raws(h)) == (Nothing, Pkts(Decoder.AcceptAll(digest, h)))
  {
    hide Machines.Run, Decoder.Accept;
    if h == [] {
      Machines.RunNothing(DecodeStep(digest), Nothing);
    } else {
      DecodeRuns(digest, Front(h));
      var (a, b) := (Decoder.AcceptAll(digest, Front(h)), Decoder.Accept(digest, Last(h)));
      Machines.RunIs(DecodeStep(digest), Nothing, Raws(Front(h)), Raw(Last(h)), Nothing, Pkts(a), Nothing, Pkts(b));
      hide *;
      assert Raws(h) == Raws(Front(h)) + [Raw(Last(h))];
      PktsAppend(a, b);
    }
  }

  lemma {:induction false} AssemblyRuns(c: Assembler.Config, h: seq<Packet>)
    requires Assembler.ValidConfig(c)
    ensures Machines.Run(AssemblyStep(c), Lines(Assembler.EmptyTable(c)), Pkts(h)) ==
      (Lines(Assembler.Run(c, h).0), Vecs(Assembler.Run(c, h).1))
  {
    if h != [] {
      hide Assembler.Step;
      AssemblyRuns(c, Front(h));
      var (t, a) := Assembler.Run(c, Front(h));
      var (t', b) := Assembler.Step(c, t, Last(h));
      Machines.RunIs(AssemblyStep(c), Lines(Assembler.EmptyTable(c)), Pkts(Front(h)), Pkt(Last(h)),
        Lines(t), Vecs(a), Lines(t'), Vecs(b));
      hide AssemblyStep, Machines.Run;
      assert Pkts(h) == Pkts(Front(h)) + [Pkt(Last(h))];
      VecsAppend(a, b);
    }
  }

  lemma {:induction false} RestoreRuns(code: Code, h: seq<Assembler.Vector>)
    ensures Machines.Run(RestoreStep(code), Nothing, Vecs(h)) == (Nothing, Chks(Decoder.RestoreAll(code, h)))
  {
    if h != [] {
      hide Decoder.Restore;
      RestoreRuns(code, Front(h));
      var (a, b) := (Decoder.RestoreAll(code, Front(h)), Decoder.Restore(code, Last(h)));
      Machines.RunIs(RestoreStep(code), Nothing, Vecs(Front(h)), Vec(Last(h)), Nothing, Chks(a), Nothing, Chks(b));
      hide RestoreStep, Machines.Run;
      assert Vecs(h) == Vecs(Front(h)) + [Vec(Last(h))];
      ChksAppend(a, b);
    }
  }

  lemma {:induction false} DispatchRuns(size: nat, h: seq<ChunkV>)
    requires size >= 1
    ensures var (s, out) := Dispatcher.Run(size, h);
      Machines.Run(DispatchStep(size), Reorder(Dispatcher.Idle(size, 0)), Chks(h)) ==
        (Reorder(s), Raws(Dispatcher.Results(out)))
  {
    hide Machines.Run, DispatchStep, Dispatcher.Step;
    if h == [] {
      Machines.RunNothing(DispatchStep(size), Reorder(Dispatcher.Idle(size, 0)));
    } else {
      DispatchRuns(size, Front(h));
      var (s, a) := Dispatcher.Run(size, Front(h));
      OneChunk(size, s, Last(h));
      var (s', b) := Dispatcher.Step(size, s, Last(h));
      var (ra, rb) := (Dispatcher.Results(a), Dispatcher.Results(b));
      Machines.RunIs(DispatchStep(size), Reorder(Dispatcher.Idle(size, 0)), Chks(Front(h)), Chk(Last(h)),
        Reorder(s), Raws(ra), Reorder(s'), Raws(rb));
      assert Dispatcher.Run(size, h) == (s', a + b);
      hide *;
      assert Chks(h) == Chks(Front(h)) + [Chk(Last(h))];
      assert Dispatcher.Results(a + b) == ra + rb;
      RawsAppend(ra, rb);
    }
  }

  lemma OneChunk(size: nat, s: Dispatcher.State, chunk: ChunkV)
    requires Dispatcher.Shaped(size, s)
    ensures var (t, out) := Dispatcher.Step(size, s, chunk);
      DispatchStep(size)(Reorder(s), Chk(chunk)) == (Reorder(t), Raws(Dispatcher.Results(out)))
  {
    hide Dispatcher.Step;
  }

  /** The decoder pipeline run in sequence is the decoding function. */
  lemma DecoderComposes(digest: Digest, c: Assembler.Config, code: Code, size: nat, frames: seq<seq<byte>>)
    requires Assembler.ValidConfig(c) && size >= 1
    ensures Compose(DecoderStages(digest, c, code, size), 4, Raws(frames)) ==
      Raws(Decoder.Decode(digest, c, code, size, frames))
  {
    hide DecodeStep, AssemblyStep, RestoreStep, DispatchStep, Machines.Run;
    var st := DecoderStages(digest, c, code, size);
    var h := Raws(frames);
    var ps := Decoder.AcceptAll(digest, frames);
    var vs := Assembler.Run(c, ps).1;
    DecodeRuns(digest, frames);
    AssemblyRuns(c, ps);
    RestoreRuns(code, vs);
    DispatchRuns(size, Decoder.RestoreAll(code, vs));
    assert Compose(st, 0, h) == h;
    assert Compose(st, 1, h) == Pkts(ps);
    assert Compose(st, 2, h) == Vecs(vs);
    assert Compose(st, 3, h) == Chks(Decoder.RestoreAll(code, vs));
  }

  // ---- Encoder.Encode: aggregate, encode, dispatch ----

  ghost function AggregateStep(cap: nat): Machines.Step<Local, Msg, Msg> {
    (s: Local, m: Msg) =>
      if (m.Raw? || m.Tick?) && s.Pending? && |s.bytes| < cap
      then
        var e := if m.Raw? then Aggregator.Data(m.bytes) else Aggregator.Tick;
        var (p, out) := Aggregator.Step(cap, s.bytes, e);
        (Pending(p), Raws(out))
      else (s, [])
  }

  ghost function EncodeStep(code: Code): Machines.Step<Local, Msg, Msg> {
    (s: Local, m: Msg) =>
      if m.Raw? && s.Counter? && EncodeStage.Usable(code) && |m.bytes| <= EncodeStage.Capacity(code) && s.csn < TWO64
      then (Counter(s.csn + 1), Pkts(EncodeStage.ChunkPackets(code, s.csn, m.bytes)))
      else (s, [])
  }

  ghost function InterleaveStep(digest: Digest, chunks: nat, total: nat): Machines.Step<Local, Msg, Msg> {
    (s: Local, m: Msg) =>
      if m.Pkt? && s.Batch? && chunks >= 1 && total >= 1 && |s.packets| < chunks * total
      then
        var (b, out) := Interleaver.Step(chunks, total, s.packets, m.packet);
        (Batch(b), Raws(Frames(digest, out)))
      else (s, [])
  }

  ghost function EncoderStages(digest: Digest, code: Code, chunks: nat): seq<Stage<Local, Msg>>
    requires EncodeStage.Capacity(code) >= 0
  {
    [Stage(Pending([]), AggregateStep(EncodeStage.Capacity(code))),
     Stage(Counter(1), EncodeStep(code)),
     Stage(Batch([]), InterleaveStep(digest, chunks, code.total))]
  }

  function MsgOf(e: Aggregator.Event): Msg { if e.Data? then Raw(e.bytes) else Tick }

  function Events(h: seq<Aggregator.Event>): (ms: seq<Msg>)
    ensures |ms| == |h| && forall i :: 0 <= i < |h| ==> ms[i] == MsgOf(h[i])
  {
    seq(|h|, i requires 0 <= i < |h| => MsgOf(h[i]))
  }

  lemma {:induction false} AggregateRuns(cap: nat, h: seq<Aggregator.Event>)
    requires cap >= 1
    ensures var (p, out) := Aggregator.Run(cap, h);
      Machines.Run(AggregateStep(cap), Pending([]), Events(h)) == (Pending(p), Raws(out))
  {
    hide Machines.Run, AggregateStep, Aggregator.Step;
    if h == [] {
      Machines.RunNothing(AggregateStep(cap), Pending([]));
    } else {
      AggregateRuns(cap, Front(h));
      var (p, a) := Aggregator.Run(cap, Front(h));
      OneEvent(cap, p, Last(h));
      var (p', b) := Aggregator.Step(cap, p, Last(h));
      Machines.RunIs(AggregateStep(cap), Pending([]), Events(Front(h)), MsgOf(Last(h)),
        Pending(p), Raws(a), Pending(p'), Raws(b));
      assert Aggregator.Run(cap, h) == (p', a + b);
      hide *;
      assert Events(h) == Events(Front(h)) + [MsgOf(Last(h))];
      RawsAppend(a, b);
    }
  }

  lemma OneEvent(cap: nat, pending: seq<byte>, e: Aggregator.Event)
    requires |pending| < cap
    ensures AggregateStep(cap)(Pending(pending), MsgOf(e)) ==
      (Pending(Aggregator.Step(cap, pending, e).0), Raws(Aggregator.Step(cap, pending, e).1))
  {
  }

  lemma {:induction false} EncodeRuns(code: Code, blocks: seq<seq<byte>>)
    requires EncodeStage.Usable(code) && EncodeStage.Sized(code, blocks)
    ensures Machines.Run(EncodeStep(code), Counter(1), Raws(blocks)) ==
      (Counter(|blocks| + 1), Pkts(EncodeStage.Encode(code, blocks)))
  {
    hide EncodeStep, EncodeStage.ChunkPackets, EncodeStage.Usable;
    if blocks != [] {
      EncodeRuns(code, Front(blocks));
      EncodeStage.EncodeLast(code, blocks);
      OneBlock(code, |blocks|, Last(blocks));
      hide EncodeStage.Encode;
      var (a, b) := (EncodeStage.Encode(code, Front(blocks)), EncodeStage.ChunkPackets(code, |blocks|, Last(blocks)));
      Machines.RunIs(EncodeStep(code), Counter(1), Raws(Front(blocks)), Raw(Last(blocks)),
        Counter(|blocks|), Pkts(a), Counter(|blocks| + 1), Pkts(b));
      hide Machines.Run;
      assert Raws(blocks) == Raws(Front(blocks)) + [Raw(Last(blocks))];
      PktsAppend(a, b);
    }
  }

  lemma OneBlock(code: Code, csn: nat, block: seq<byte>)
    requires EncodeStage.Usable(code) && |block| <= EncodeStage.Capacity(code) && csn < TWO64
    ensures EncodeStep(code)(Counter(csn), Raw(block)) ==
      (Counter(csn + 1), Pkts(EncodeStage.ChunkPackets(code, csn, block)))
  {
  }

  lemma {:induction false} InterleaveRuns(digest: Digest, chunks: nat, total: nat, h: seq<Packet>)
    requires chunks >= 1 && total >= 1
    ensures var (b, out) := Interleaver.Run(chunks, total, h);
      Machines.Run(InterleaveStep(digest, chunks, total), Batch([]), Pkts(h)) == (Batch(b), Raws(Frames(digest, out)))
  {
    hide Machines.Run, InterleaveStep, Interleaver.Step, Frame;
    if h == [] {
      Machines.RunNothing(InterleaveStep(digest, chunks, total), Batch([]));
    } else {
      InterleaveRuns(digest, chunks, total, Front(h));
      var (batch, a) := Interleaver.Run(chunks, total, Front(h));
      OnePacket(digest, chunks, total, batch, Last(h));
      var (batch', b) := Interleaver.Step(chunks, total, batch, Last(h));
      var (fa, fb) := (Frames(digest, a), Frames(digest, b));
      Machines.RunIs(InterleaveStep(digest, chunks, total), Batch([]), Pkts(Front(h)), Pkt(Last(h)),
        Batch(batch), Raws(fa), Batch(batch'), Raws(fb));
      assert Interleaver.Run(chunks, total, h) == (batch', a + b);
      hide *;
      assert Pkts(h) == Pkts(Front(h)) + [Pkt(Last(h))];
      assert Frames(digest, a + b) == fa + fb;
      RawsAppend(fa, fb);
    }
  }

  lemma OnePacket(digest: Digest, chunks: nat, total: nat, batch: seq<Packet>, p: Packet)
    requires chunks >= 1 && total >= 1 && |batch| < chunks * total
    ensures var (b, out) := Interleaver.Step(chunks, total, batch, p);
      InterleaveStep(digest, chunks, total)(Batch(batch), Pkt(p)) == (Batch(b), Raws(Frames(digest, out)))
  {
    hide Interleaver.Step, Frame;
  }

  /** Blocks of an input, as the aggregator cuts it. */
  function BlocksOf(code: Code, h: seq<Aggregator.Event>): seq<seq<byte>>
    requires EncodeStage.Capacity(code) >= 1
  {
    Aggregator.Run(EncodeStage.Capacity(code), h).1
  }

  /** The encoder pipeline run in sequence: cut into blocks, encode, interleave, marshal. */
  lemma EncoderComposes(digest: Digest, code: Code, chunks: nat, h: seq<Aggregator.Event>)
    requires EncodeStage.Usable(code) && chunks >= 1 && |BlocksOf(code, h)| < TWO64 - 1
    ensures EncodeStage.Sized(code, BlocksOf(code, h))
    ensures Compose(EncoderStages(digest, code, chunks), 3, Events(h)) ==
      Raws(Frames(digest, Interleaver.Run(chunks, code.total, EncodeStage.Encode(code, BlocksOf(code, h))).1))
  {
    var cap := EncodeStage.Capacity(code);
    Aggregator.RunConserves(cap, h);
    var blocks := BlocksOf(code, h);
    AggregateRuns(cap, h);
    EncodeRuns(code, blocks);
    InterleaveRuns(digest, chunks, code.total, EncodeStage.Encode(code, blocks));
    hide AggregateStep, EncodeStep, InterleaveStep, Machines.Run, EncodeStage.Encode, Interleaver.Run;
    var st := EncoderStages(digest, code, chunks);
    assert Compose(st, 0, Events(h)) == Events(h);
    assert Compose(st, 1, Events(h)) == Raws(blocks);
    assert Compose(st, 2, Events(h)) == Pkts(EncodeStage.Encode(code, blocks));
  }
}
