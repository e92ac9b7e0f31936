/** Both pipelines under any schedule, joined by a link. */
module System {
  import opened Lists
  import opened Bytes
  import opened Packets
  import opened ErasureCode
  import opened EncodeStage
  import opened Pipeline
  import opened Codec
  import opened AssemblerCounts
  import opened AssemblerOrder
  import opened Decoder
  import opened EndToEnd
  import opened StreamExact
  import Machines
  import Aggregator
  import Assembler
  import Interleaver
  import opened Recovery
  import Losses

  /** The packets the encoder sends for an input when it has run to completion. */
  function Stream(code: Code, chunks: nat, h: seq<Aggregator.Event>): seq<Packet>
    requires Usable(code) && chunks >= 1 && |BlocksOf(code, h)| < TWO64 - 1
  {
    Aggregator.RunConserves(Capacity(code), h);
    Interleaver.Run(chunks, code.total, Encode(code, BlocksOf(code, h))).1
  }

  /** What the decoder computes from the frames of some packets is what its inner stages recover. */
  lemma DecodeFrames(digest: Digest, c: Assembler.Config, code: Code, size: nat, ps: seq<Packet>)
    requires Assembler.ValidConfig(c) && size >= 1
    requires forall i :: 0 <= i < |ps| ==> ps[i].addr == ADDR_FEC
    ensures Decoder.Decode(digest, c, code, size, Frames(digest, ps)) == Recovered(code, c, size, ps)
  {
    hide Frame, Assembler.Run;
    Decoder.FramesAccepted(digest, ps);
  }

  lemma GenuineAddresses(code: Code, blocks: seq<seq<byte>>, ps: seq<Packet>)
    requires Usable(code) && Sized(code, blocks) && Genuine(code, blocks, ps)
    ensures forall i :: 0 <= i < |ps| ==> ps[i].addr == ADDR_FEC
  {
    forall i | 0 <= i < |ps| ensures ps[i].addr == ADDR_FEC { assert IsEncoded(code, blocks, ps[i]); }
  }

  /** The encoder under any schedule has sent a prefix of the frames of its stream. */
  lemma EncoderSends(digest: Digest, code: Code, chunks: nat, h: seq<Aggregator.Event>,
                     caps: seq<nat>, acts: seq<Action<Msg>>, net: Net<Local, Msg>)
    requires Usable(code) && chunks >= 1 && |BlocksOf(code, h)| < TWO64 - 1
    requires Reaches(EncoderStages(digest, code, chunks), caps, acts, net) && |net.sent| == 4
    requires net.sent[0] == Events(h)
    ensures net.sent[3] <= Raws(Frames(digest, Stream(code, chunks, h)))
  {
    hide Reaches, Usable, EncoderStages, Interleaver.Run, Encode, Compose;
    ResultsArePrefix(EncoderStages(digest, code, chunks), caps, acts, net);
    EncoderStagesLength(digest, code, chunks);
    EncoderComposes(digest, code, chunks, h);
  }

  lemma EncoderStagesLength(digest: Digest, code: Code, chunks: nat)
    requires Capacity(code) >= 0
    ensures |EncoderStages(digest, code, chunks)| == 3
  {
  }

  /** The decoder under any schedule has delivered a prefix of what it computes in sequence from any
      frames that begin with those it was given. */
  lemma DecoderDelivers(digest: Digest, c: Assembler.Config, code: Code, size: nat, frames: seq<seq<byte>>,
                        caps: seq<nat>, acts: seq<Action<Msg>>, net: Net<Local, Msg>)
    requires Assembler.ValidConfig(c) && size >= 1
    requires Reaches(DecoderStages(digest, c, code, size), caps, acts, net) && |net.sent| == 5
    requires net.sent[0] <= Raws(frames)
    ensures net.sent[4] <= Raws(Decoder.Decode(digest, c, code, size, frames))
  {
    var stages := DecoderStages(digest, c, code, size);
    assert |stages| == 4;
    hide Reaches, DecoderStages, Compose, Decoder.Decode;
    ResultsArePrefix(stages, caps, acts, net);
    ComposeGrows(stages, 4, net.sent[0], Raws(frames));
    PrefixTrans(net.sent[4], Compose(stages, 4, net.sent[0]), Compose(stages, 4, Raws(frames)));
    DecoderComposes(digest, c, code, size, frames);
  }

  lemma {:induction false} ComposeGrows<S, M>(stages: seq<Stage<S, M>>, k: nat, g: seq<M>, h: seq<M>)
    requires k <= |stages| && g <= h
    ensures Compose(stages, k, g) <= Compose(stages, k, h)
  {
    if k > 0 {
      ComposeGrows(stages, k - 1, g, h);
      Machines.RunPrefix(stages[k - 1].step, stages[k - 1].init,
        Compose(stages, k - 1, g), Compose(stages, k - 1, h));
    }
  }

  // ---- The link: what it delivers of the packets sent ----

  lemma {:induction false} DeliveredPrefix(keeps: Loss, a: seq<Packet>, b: seq<Packet>)
    requires a <= b
    ensures Delivered(keeps, a) <= Delivered(keeps, b)
  {
    if a != b {
      assert a <= Front(b);
      DeliveredPrefix(keeps, a, Front(b));
    }
  }

  /** Frames determine their packets. */
  lemma PacketsPrefix(digest: Digest, a: seq<Packet>, b: seq<Packet>)
    requires Raws(Frames(digest, a)) <= Raws(Frames(digest, b))
    ensures a <= b
  {
    hide Frame, Parse;
    RawsPrefix(Frames(digest, a), Frames(digest, b));
    forall i | 0 <= i < |a| ensures a[i] == b[i] {
      assert Frames(digest, a)[i] == Frames(digest, b)[i];
      PacketRoundTrip(digest, a[i]);
      PacketRoundTrip(digest, b[i]);
    }
  }

  lemma FramesPrefix(digest: Digest, a: seq<Packet>, b: seq<Packet>)
    requires a <= b
    ensures Raws(Frames(digest, a)) <= Raws(Frames(digest, b))
  {
    hide Frame;
  }

  lemma RawsPrefix(a: seq<seq<byte>>, b: seq<seq<byte>>)
    requires Raws(a) <= Raws(b)
    ensures a <= b
  {
    assert |Raws(a)| <= |Raws(b)|;
    forall i | 0 <= i < |a| ensures a[i] == b[i] {
      assert Raws(a)[i] == Raws(b)[..|a|][i] == Raws(b)[i];
    }
  }

  /** The link has so far delivered a part of what the encoder has sent: it lost what keeps says
      and kept the order. */
  ghost predicate Linked(digest: Digest, keeps: Loss, sent: seq<Msg>, given: seq<Msg>) {
    exists ps :: sent == Raws(Frames(digest, ps)) && given <= Raws(Frames(digest, Delivered(keeps, ps)))
  }

  /** No packet is lost. */
  function NoLoss(): Loss { (csn: nat, psn: nat) => true }

  lemma {:induction false} NoLossDelivers(out: seq<Packet>)
    ensures Delivered(NoLoss(), out) == out
  {
    if out != [] {
      NoLossDelivers(Front(out));
      assert out == Front(out) + [Last(out)];
    }
  }

  lemma NoLossRecoverable(data: nat, total: nat, chunks: nat, n: nat)
    requires data <= total && chunks >= 1
    ensures Recoverable(NoLoss(), data, total, chunks, n)
  {
    hide NoLoss, BatchOf;
    assert forall csn: nat, psn: nat :: NoLoss()(csn, psn) by { EverythingKept(); }
    forall csn: nat, r: nat ensures Arrived(NoLoss(), csn, r) == r { Losses.NothingLost(NoLoss(), csn, r); }
  }

  lemma EverythingKept()
    ensures forall csn: nat, psn: nat :: NoLoss()(csn, psn)
  {
  }

  /** A link without losses. */
  lemma LosslessLinked(digest: Digest, ps: seq<Packet>, sent: seq<Msg>, given: seq<Msg>)
    requires sent <= Raws(Frames(digest, ps)) && given <= sent
    ensures Linked(digest, NoLoss(), sent, given)
  {
    hide Frame, NoLoss;
    var part := ps[..|sent|];
    assert sent == Raws(Frames(digest, part));
    NoLossDelivers(part);
  }

  /** Whatever such a link delivers of part of the stream, it is the beginning of what it delivers of all of it. */
  lemma LinkPrefix(digest: Digest, keeps: Loss, all: seq<Packet>, sent: seq<Msg>, given: seq<Msg>)
    requires Linked(digest, keeps, sent, given) && sent <= Raws(Frames(digest, all))
    ensures given <= Raws(Frames(digest, Delivered(keeps, all)))
  {
    hide Frames, Delivered;
    var ps :| sent == Raws(Frames(digest, ps)) && given <= Raws(Frames(digest, Delivered(keeps, ps)));
    PacketsPrefix(digest, ps, all);
    DeliveredPrefix(keeps, ps, all);
    FramesPrefix(digest, Delivered(keeps, ps), Delivered(keeps, all));
    PrefixTrans(given, Raws(Frames(digest, Delivered(keeps, ps))),
      Raws(Frames(digest, Delivered(keeps, all))));
  }

  /** What the decoder computes in sequence from all the link delivers of the stream. */
  lemma ArrivalsDecode(digest: Digest, c: Assembler.Config, code: Code, size: nat, chunks: nat,
                       h: seq<Aggregator.Event>, keeps: Loss)
    requires Usable(code) && c == LineConfig(code, c.lines) && c.lines >= 1 && size >= 1 && chunks >= 1
    requires |BlocksOf(code, h)| < TWO64 - 1
    ensures Assembler.ValidConfig(c) && Sized(code, BlocksOf(code, h))
    ensures Decoder.Decode(digest, c, code, size, Frames(digest, Delivered(keeps, Stream(code, chunks, h)))) ==
      Recovered(code, c, size, Arrivals(code, chunks, BlocksOf(code, h), keeps))
  {
    var blocks := BlocksOf(code, h);
    Aggregator.RunConserves(Capacity(code), h);
    UsableTotal(code);
    hide Usable, Interleaver.Run, Encode, Genuine, Recovered, Decoder.Decode, Frames, BlocksOf, Delivered;
    var out := Stream(code, chunks, h);
    StreamGenuine(code, chunks, blocks);
    DeliveredGenuine(code, blocks, keeps, out);
    GenuineAddresses(code, blocks, Delivered(keeps, out));
    DecodeFrames(digest, c, code, size, Delivered(keeps, out));
  }

  // ---- Under every schedule ----

  /** End to end over an in-order link with losses that can be made good, whatever the goroutine
      schedules, the timer and the sizes of the writes: what the decoder has delivered is at every
      moment a prefix of the blocks of the full batches, and so of the bytes written. */
  lemma LossyPrefixDelivered(
      digest: Digest, c: Assembler.Config, code: Code, size: nat, chunks: nat, h: seq<Aggregator.Event>, n: nat,
      keeps: Loss,
      caps: seq<nat>, acts: seq<Action<Msg>>, net: Net<Local, Msg>,
      caps': seq<nat>, acts': seq<Action<Msg>>, net': Net<Local, Msg>, results: seq<seq<byte>>)
    requires Usable(code) && c == LineConfig(code, c.lines) && size >= 1 && 1 <= chunks <= c.lines
    requires |BlocksOf(code, h)| < TWO64 - 1 && Fills(BlocksOf(code, h), chunks, n)
    requires Recoverable(keeps, Needed(code), code.total, chunks, n)
    requires Reaches(EncoderStages(digest, code, chunks), caps, acts, net) && |net.sent| == 4
    requires net.sent[0] == Events(h)
    requires Reaches(DecoderStages(digest, c, code, size), caps', acts', net') && |net'.sent| == 5
    requires Linked(digest, keeps, net.sent[3], net'.sent[0])
    requires net'.sent[4] == Raws(results)
    ensures 0 <= n * chunks <= |BlocksOf(code, h)|
    ensures results <= BlocksOf(code, h)[..n * chunks]
    ensures Flatten(results) <= Aggregator.Input(h)
  {
    UsableTotal(code);
    hide Reaches, Usable, EncoderStages, DecoderStages, Interleaver.Run, Encode, Decoder.Decode, Frames, Fills,
      BlocksOf, Delivered, Linked, Recoverable, Recovered;
    var blocks := BlocksOf(code, h);
    ArrivalsDecode(digest, c, code, size, chunks, h, keeps);
    LossesRecovered(code, c, size, chunks, blocks, n, keeps);
    EncoderSends(digest, code, chunks, h, caps, acts, net);
    var stream := Stream(code, chunks, h);
    LinkPrefix(digest, keeps, stream, net.sent[3], net'.sent[0]);
    DecoderDelivers(digest, c, code, size, Frames(digest, Delivered(keeps, stream)), caps', acts', net');
    RawsPrefix(results, blocks[..n * chunks]);
    BytesPrefix(code, h, results, n * chunks);
  }

  lemma LossesRecovered(code: Code, c: Assembler.Config, size: nat, chunks: nat, blocks: seq<seq<byte>>, n: nat,
                        keeps: Loss)
    requires Usable(code) && Sized(code, blocks) && c == LineConfig(code, c.lines)
    requires size >= 1 && 1 <= chunks <= c.lines && Fills(blocks, chunks, n)
    requires Recoverable(keeps, Needed(code), code.total, chunks, n)
    ensures 0 <= n * chunks <= |blocks| && Assembler.ValidConfig(c)
    ensures Recovered(code, c, size, Arrivals(code, chunks, blocks, keeps)) == blocks[..n * chunks]
  {
    UsableTotal(code);
    hide Usable, Sized, Fills, Recovered, Arrivals, EnoughArrive, RowsInOrder;
    LossesMadeGood(code, c, size, chunks, blocks, n, keeps);
  }

  lemma BytesPrefix(code: Code, h: seq<Aggregator.Event>, results: seq<seq<byte>>, k: nat)
    requires Capacity(code) >= 1 && k <= |BlocksOf(code, h)| && results <= BlocksOf(code, h)[..k]
    ensures Flatten(results) <= Aggregator.Input(h)
  {
    var blocks := BlocksOf(code, h);
    Aggregator.RunConserves(Capacity(code), h);
    assert results == blocks[..|results|];
    FlattenPrefix(blocks, |results|);
    PrefixTrans(Flatten(results), Flatten(blocks), Aggregator.Input(h));
  }

  /** So without losses too. */
  lemma PrefixDelivered(
      digest: Digest, c: Assembler.Config, code: Code, size: nat, chunks: nat, h: seq<Aggregator.Event>, n: nat,
      caps: seq<nat>, acts: seq<Action<Msg>>, net: Net<Local, Msg>,
      caps': seq<nat>, acts': seq<Action<Msg>>, net': Net<Local, Msg>, results: seq<seq<byte>>)
    requires Usable(code) && c == LineConfig(code, c.lines) && size >= 1 && 1 <= chunks <= c.lines
    requires |BlocksOf(code, h)| < TWO64 - 1 && Fills(BlocksOf(code, h), chunks, n)
    requires Reaches(EncoderStages(digest, code, chunks), caps, acts, net) && |net.sent| == 4
    requires net.sent[0] == Events(h)
    requires Reaches(DecoderStages(digest, c, code, size), caps', acts', net') && |net'.sent| == 5
    requires net'.sent[0] <= net.sent[3]
    requires net'.sent[4] == Raws(results)
    ensures 0 <= n * chunks <= |BlocksOf(code, h)|
    ensures results <= BlocksOf(code, h)[..n * chunks]
    ensures Flatten(results) <= Aggregator.Input(h)
  {
    UsableTotal(code);
    hide Reaches, Usable, EncoderStages, DecoderStages, Interleaver.Run, Encode, Frames, Fills, BlocksOf, Linked,
      Recoverable;
    EncoderSends(digest, code, chunks, h, caps, acts, net);
    LosslessLinked(digest, Stream(code, chunks, h), net.sent[3], net'.sent[0]);
    NoLossRecoverable(Needed(code), code.total, chunks, n);
    LossyPrefixDelivered(digest, c, code, size, chunks, h, n, NoLoss(), caps, acts, net, caps', acts', net', results);
  }

  /** When neither pipeline has anything left to do and both result channels have room, what has been
      delivered over an in-order link with any losses is what the decoder recovers in sequence: exactly
      the blocks of the full batches if the losses can be made good, and, with less than double
      redundancy or where no two blocks are the same, only if. */
  lemma AllDelivered(
      digest: Digest, c: Assembler.Config, code: Code, size: nat, chunks: nat, h: seq<Aggregator.Event>, n: nat,
      keeps: Loss, ps: seq<Packet>,
      caps: seq<nat>, acts: seq<Action<Msg>>, net: Net<Local, Msg>,
      caps': seq<nat>, acts': seq<Action<Msg>>, net': Net<Local, Msg>)
    requires Usable(code) && c == LineConfig(code, c.lines) && size >= 1 && 1 <= chunks <= c.lines
    requires |BlocksOf(code, h)| < TWO64 - 1 && Fills(BlocksOf(code, h), chunks, n)
    requires Reaches(EncoderStages(digest, code, chunks), caps, acts, net)
    requires AtRest(EncoderStages(digest, code, chunks), caps, net) && net.sent[0] == Events(h)
    requires Reaches(DecoderStages(digest, c, code, size), caps', acts', net')
    requires AtRest(DecoderStages(digest, c, code, size), caps', net')
    requires Last(net.sent) == Raws(Frames(digest, ps))
    requires net'.sent[0] == Raws(Frames(digest, Delivered(keeps, ps)))
    ensures 0 <= n * chunks <= |BlocksOf(code, h)|
    ensures Recoverable(keeps, Needed(code), code.total, chunks, n) ==>
      Last(net'.sent) == Raws(BlocksOf(code, h)[..n * chunks])
    ensures Telling(code, BlocksOf(code, h)[..n * chunks]) ==>
      (Last(net'.sent) == Raws(BlocksOf(code, h)[..n * chunks]) ==>
       Recoverable(keeps, Needed(code), code.total, chunks, n))
  {
    var (enc, dec) := (EncoderStages(digest, code, chunks), DecoderStages(digest, c, code, size));
    EncoderStagesLength(digest, code, chunks);
    assert |dec| == 4;
    var blocks := BlocksOf(code, h);
    ArrivalsDecode(digest, c, code, size, chunks, h, keeps);
    hide Reaches, Usable, EncoderStages, DecoderStages, Interleaver.Run, Encode, Decoder.Decode, Frames, Fills,
      BlocksOf, Compose, Delivered, Recoverable, Recovered, Arrivals, Sized, Telling;
    AtRestDone(enc, caps, acts, net);
    AtRestDone(dec, caps', acts', net');
    EncoderComposes(digest, code, chunks, h);
    SamePackets(digest, ps, Stream(code, chunks, h));
    DecoderComposes(digest, c, code, size, Frames(digest, Delivered(keeps, ps)));
    StreamRecoveredExactly(code, c, size, chunks, blocks, n, keeps);
    if Recoverable(keeps, Needed(code), code.total, chunks, n) {
      LossesRecovered(code, c, size, chunks, blocks, n, keeps);
    }
    SameRaws(Recovered(code, c, size, Arrivals(code, chunks, blocks, keeps)), blocks[..n * chunks]);
  }

  lemma SameRaws(a: seq<seq<byte>>, b: seq<seq<byte>>)
    ensures Raws(a) == Raws(b) <==> a == b
  {
    if Raws(a) == Raws(b) { RawsPrefix(a, b); RawsPrefix(b, a); }
  }

  lemma SamePackets(digest: Digest, a: seq<Packet>, b: seq<Packet>)
    requires Raws(Frames(digest, a)) == Raws(Frames(digest, b))
    ensures a == b
  {
    hide Frames;
    PacketsPrefix(digest, a, b);
    PacketsPrefix(digest, b, a);
  }

  /** At rest all results are out. */
  lemma AtRestDone(stages: seq<Stage<Local, Msg>>, caps: seq<nat>, acts: seq<Action<Msg>>, net: Net<Local, Msg>)
    requires Reaches(stages, caps, acts, net) && AtRest(stages, caps, net)
    ensures |net.sent| == |stages| + 1 && Last(net.sent) == Compose(stages, |stages|, net.sent[0])
  {
    hide Reaches, Compose, Work;
    Completion(stages, caps, acts, net);
  }

  /** Whatever the schedule, and over every link that delivers packets of the encoder, however it loses,
      repeats and reorders them: only blocks of the encoder are ever delivered. */
  lemma OnlyBlocksDelivered(
      digest: Digest, c: Assembler.Config, code: Code, size: nat, blocks: seq<seq<byte>>, ps: seq<Packet>,
      caps: seq<nat>, acts: seq<Action<Msg>>, net: Net<Local, Msg>, results: seq<seq<byte>>)
    requires Usable(code) && Sized(code, blocks) && c == LineConfig(code, c.lines) && c.lines >= 1 && size >= 1
    requires Genuine(code, blocks, ps)
    requires Reaches(DecoderStages(digest, c, code, size), caps, acts, net) && |net.sent| == 5
    requires net.sent[0] <= Raws(Frames(digest, ps)) && net.sent[4] == Raws(results)
    ensures forall x :: x in results ==> x in blocks
  {
    UsableTotal(code);
    hide Reaches, Usable, DecoderStages, Decoder.Decode, Frames, Genuine, Recovered, Sized;
    PartOfRecovered(digest, c, code, size, blocks, ps, caps, acts, net, results);
    NothingMadeUp(code, c, size, blocks, ps);
    forall x | x in results ensures x in blocks { assert x in Recovered(code, c, size, ps); }
  }

  /** Under every schedule the decoder has delivered a prefix of what it recovers in sequence. */
  lemma PartOfRecovered(
      digest: Digest, c: Assembler.Config, code: Code, size: nat, blocks: seq<seq<byte>>, ps: seq<Packet>,
      caps: seq<nat>, acts: seq<Action<Msg>>, net: Net<Local, Msg>, results: seq<seq<byte>>)
    requires Usable(code) && Sized(code, blocks) && Assembler.ValidConfig(c) && size >= 1
    requires Genuine(code, blocks, ps)
    requires Reaches(DecoderStages(digest, c, code, size), caps, acts, net) && |net.sent| == 5
    requires net.sent[0] <= Raws(Frames(digest, ps)) && net.sent[4] == Raws(results)
    ensures results <= Recovered(code, c, size, ps)
  {
    hide Reaches, Usable, DecoderStages, Decoder.Decode, Frames, Genuine, Recovered, Sized;
    GenuineAddresses(code, blocks, ps);
    DecodeFrames(digest, c, code, size, ps);
    DecoderDelivers(digest, c, code, size, Frames(digest, ps), caps, acts, net);
    RawsPrefix(results, Recovered(code, c, size, ps));
  }

  lemma PartOfFirst(results: seq<seq<byte>>, blocks: seq<seq<byte>>, m: nat)
    requires m <= |blocks| && results <= blocks[..m]
    ensures results <= blocks && |results| <= m
  {
  }

  /** Whatever the schedule, and over every lossy, reordering, duplicate-free link on which chunks
      complete in order and open chunks do not share a line: what has been delivered is a prefix of the
      blocks, up to the last complete chunk. */
  lemma ReorderedDelivered(
      digest: Digest, c: Assembler.Config, code: Code, size: nat, blocks: seq<seq<byte>>, ps: seq<Packet>,
      caps: seq<nat>, acts: seq<Action<Msg>>, net: Net<Local, Msg>, results: seq<seq<byte>>)
    requires Usable(code) && Sized(code, blocks) && c == LineConfig(code, c.lines) && c.lines >= 1 && size >= 1
    requires Genuine(code, blocks, ps) && Distinct(ps)
    requires Assembler.ValidConfig(Effective(c)) && AllInTurn(Effective(c), ps)
    requires Reaches(DecoderStages(digest, c, code, size), caps, acts, net) && |net.sent| == 5
    requires net.sent[0] <= Raws(Frames(digest, ps)) && net.sent[4] == Raws(results)
    ensures results <= blocks
    ensures |results| > 0 ==> Count(ps, |results|) >= Needed(code)
  {
    UsableTotal(code);
    PartOfRecovered(digest, c, code, size, blocks, ps, caps, acts, net, results);
    ErasureTolerance(code, c, size, blocks, ps);
    hide *;
    PartOfFirst(results, blocks, Assembler.Run(c, ps).0.last);
  }

  /** There is a way to the end: for every input, all losses and all channel capacities some schedules
      of the two pipelines bring both to rest, with the link in between. */
  lemma SomeScheduleDelivers(
      digest: Digest, c: Assembler.Config, code: Code, size: nat, chunks: nat, h: seq<Aggregator.Event>,
      keeps: Loss, caps: seq<nat>, caps': seq<nat>)
      returns (ps: seq<Packet>, acts: seq<Action<Msg>>, net: Net<Local, Msg>,
               acts': seq<Action<Msg>>, net': Net<Local, Msg>)
    requires Usable(code) && chunks >= 1 && |BlocksOf(code, h)| < TWO64 - 1
    requires |caps| == 4 && |caps'| == 5
    requires (forall i :: 0 <= i < 4 ==> caps[i] >= 1) && (forall i :: 0 <= i < 5 ==> caps'[i] >= 1)
    ensures Reaches(EncoderStages(digest, code, chunks), caps, acts, net)
    ensures AtRest(EncoderStages(digest, code, chunks), caps, net) && net.sent[0] == Events(h)
    ensures Reaches(DecoderStages(digest, c, code, size), caps', acts', net')
    ensures AtRest(DecoderStages(digest, c, code, size), caps', net')
    ensures Last(net.sent) == Raws(Frames(digest, ps))
    ensures net'.sent[0] == Raws(Frames(digest, Delivered(keeps, ps)))
  {
    var (enc, dec) := (EncoderStages(digest, code, chunks), DecoderStages(digest, c, code, size));
    EncoderStagesLength(digest, code, chunks);
    assert |dec| == 4;
    hide Reaches, Usable, EncoderStages, DecoderStages, Frames, AtRest, Compose, Delivered;
    ps := Stream(code, chunks, h);
    acts, net := FeedAll(enc, caps, Events(h));
    AtRestDone(enc, caps, acts, net);
    EncoderComposes(digest, code, chunks, h);
    acts', net' := FeedAll(dec, caps', Raws(Frames(digest, Delivered(keeps, ps))));
  }

  /** There are codes to which all of this applies. */
  lemma Inhabited(data: nat, lines: nat)
    requires 1 <= data < 65535 && lines >= 1
    ensures var code := XorParity(data);
      Usable(code) && (forall blocks :: Telling(code, blocks)) && Assembler.ValidConfig(LineConfig(code, lines))
  {
    XorUsable(data);
  }
}
