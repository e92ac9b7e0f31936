/** Why a batch must not have more chunks than the assembler has lines. */
module LinesExact {
  import opened Lists
  import opened Bytes
  import opened Packets
  import opened ErasureCode
  import opened EncodeStage
  import opened Assembler
  import opened AssemblerCounts
  import opened AssemblerOrder
  import opened Decoder
  import opened EndToEnd
  import opened Recovery
  import opened StreamExact
  import Interleaver
  import Losses
  import Arith

  /** The first row of the stream holds the first packet of each chunk of the first batch. */
  lemma FirstRow(chunks: nat, total: nat, out: seq<Packet>, j: nat)
    requires chunks >= 1 && total >= 1 && Interleaver.RowByRow(chunks, total, out) && j < chunks && j < |out|
    ensures out[j].csn == j + 1 && out[j].psn == 0
  {
    hide Interleaver.At;
    AtPlace(chunks, total, Interleaver.Pos(0, 0, j));
  }

  /** Up to a packet a line the chunks of the first row open in lines of their own. */
  lemma {:induction false} RowOpens(c: Config, chunks: nat, out: seq<Packet>, k: nat)
    requires ValidConfig(c) && c.data >= 2 && c.lines < chunks && Interleaver.RowByRow(chunks, c.total, out)
    requires k <= c.lines && k <= |out|
    ensures AllInTurn(c, out[..k])
    ensures forall e: nat :: Count(out[..k], e) == if 1 <= e <= k then 1 else 0
  {
    hide Interleaver.RowByRow;
    if k > 0 {
      var (g, p) := (out[..k - 1], out[k - 1]);
      RowOpens(c, chunks, out, k - 1);
      FirstRow(chunks, c.total, out, k - 1);
      assert out[..k] == g + [p] && Front(out[..k]) == g && Last(out[..k]) == p;
      forall e: nat | Open(c, g, e) && e % c.lines == p.csn % c.lines ensures e == p.csn {
        SameRemainder(e, p.csn, c.lines);
      }
    }
  }

  /** One more chunk than lines, and the first is evicted. */
  lemma FirstEvicted(c: Config, chunks: nat, out: seq<Packet>)
    requires ValidConfig(c) && c.data >= 2 && c.lines < chunks && Interleaver.RowByRow(chunks, c.total, out)
    requires |out| > c.lines
    ensures Run(c, out[..c.lines + 1]).0.last == 1 && PushOrder(c, out[..c.lines + 1]) == []
  {
    var (g, p) := (out[..c.lines], out[c.lines]);
    var t := Run(c, g).0;
    RowOpens(c, chunks, out, c.lines);
    FirstRow(chunks, c.total, out, c.lines);
    assert out[..c.lines + 1] == g + [p] && Front(g + [p]) == g;
    OrderedCompletion(c, g);
    NothingComplete(c, g, t);
    hide Interleaver.RowByRow, AllInTurn, Run, OpenLines;
    LineTaken(c, g, p, t);
    RunSnoc(c, g, p);
    PushOrderNext(c, g + [p]);
  }

  lemma NothingComplete(c: Config, h: seq<Packet>, t: Table)
    requires ValidConfig(c) && c.data >= 2 && Shaped(c, t.rows) && OpenLines(c, h, t)
    requires (forall e: nat :: Count(h, e) <= 1) && Count(h, 1) == 1
    ensures t.last == 0 && t.rows[1 % c.lines] == OpenRow(c, h, 1)
  {
    assert !(Count(h, t.last) >= c.data);
    assert Open(c, h, 1);
  }

  lemma LineTaken(c: Config, h: seq<Packet>, p: Packet, t: Table)
    requires ValidConfig(c) && Shaped(c, t.rows) && t.last == 0 && t.rows[1 % c.lines] == OpenRow(c, h, 1)
    requires Count(h, 1) == 1 && p.csn == c.lines + 1 && p.psn < c.total
    ensures Step(c, t, p).0.last == 1 && Step(c, t, p).1 == []
  {
    Arith.ModAdd(1, c.lines, 1);
    hide Gathered, Count;
    Evicted(c, t, p, p.csn % c.lines);
  }

  lemma Evicted(c: Config, t: Table, p: Packet, k: nat)
    requires ValidConfig(c) && Shaped(c, t.rows) && k == p.csn % c.lines && p.csn > t.last && p.psn < c.total
    requires t.rows[k].found != 0 && t.rows[k].csn != p.csn
    ensures Step(c, t, p).0.last == t.rows[k].csn && Step(c, t, p).1 == []
  {
  }

  /** An eviction never takes last back to 0. */
  lemma LastKept(c: Config, t: Table, p: Packet)
    requires ValidConfig(c) && Pure(c, t) && t.last >= 1
    ensures Step(c, t, p).0.last >= 1
    ensures p.csn == 1 ==> Step(c, t, p).1 == []
  {
    assert PureRow(c, t.rows[p.csn % c.lines], p.csn % c.lines);
  }

  lemma {:induction false} FirstNeverPushed(c: Config, chunks: nat, out: seq<Packet>)
    requires ValidConfig(c) && c.data >= 2 && c.lines < chunks && Interleaver.RowByRow(chunks, c.total, out)
    requires |out| > c.lines && InBounds(c, out)
    ensures Run(c, out).0.last >= 1 && 1 !in PushOrder(c, out)
  {
    if |out| == c.lines + 1 {
      FirstEvicted(c, chunks, out);
      assert out[..c.lines + 1] == out;
    } else {
      var g := Front(out);
      RowsPrefix(chunks, c.total, out);
      FirstNeverPushed(c, chunks, g);
      RunPure(c, g);
      LastKept(c, Run(c, g).0, Last(out));
      PushOrderNext(c, out);
      hide Step, PushOrder;
    }
  }

  /** With more chunks to a batch than lines chunk 1 is lost although no packet is. */
  lemma FirstLostToEviction(code: Code, c: Config, chunks: nat, blocks: seq<seq<byte>>, n: nat, keeps: Loss)
    requires Usable(code) && Sized(code, blocks) && c == LineConfig(code, c.lines) && ValidConfig(c)
    requires chunks > c.lines && Fills(blocks, chunks, n) && n >= 1 && forall csn, psn :: keeps(csn, psn)
    ensures 1 !in PushOrder(c, Arrivals(code, chunks, blocks, keeps))
  {
    UsableTotal(code);
    var out := ArrivalsAre(code, chunks, blocks, n, keeps);
    EverythingDelivered(keeps, out);
    hide Usable, Sized, Genuine, Delivered, Interleaver.RowByRow, PushOrder, Fills, Arrivals;
    GenuineBounds(code, c, blocks, out);
    PushOrderEffective(c, out);
    FirstBatchLong(chunks, code.total, n);
    FirstNeverPushed(Effective(c), chunks, out);
  }

  lemma FirstBatchLong(chunks: nat, total: nat, n: nat)
    requires chunks >= 1 && total >= 1 && n >= 1
    ensures n * (chunks * total) >= chunks
  {
    Arith.MulMono(1, total, chunks);
    assert chunks * total == total * chunks;
    Arith.MulMono(1, n, chunks * total);
  }

  lemma {:induction false} EverythingDelivered(keeps: Loss, out: seq<Packet>)
    requires forall csn, psn :: keeps(csn, psn)
    ensures Delivered(keeps, out) == out
  {
    hide Delivered;
    if out == [] {
      NothingDelivered(keeps);
    } else {
      var front, last := Front(out), Last(out);
      EverythingDelivered(keeps, front);
      DeliveredNext(keeps, out);
      assert keeps(last.csn, last.psn);
      assert out == front + [last];
      hide *;
    }
  }

  /** Over a lossless in-order link all chunks of a stream are restored if and only if the assembler
      has a line for each chunk of a batch. */
  lemma LosslessExactly(code: Code, c: Config, size: nat, chunks: nat, blocks: seq<seq<byte>>, n: nat, keeps: Loss)
    requires Usable(code) && Sized(code, blocks) && c == LineConfig(code, c.lines) && c.lines >= 1
    requires size >= 1 && chunks >= 1 && Fills(blocks, chunks, n) && n >= 1 && forall csn, psn :: keeps(csn, psn)
    ensures 0 <= n * chunks <= |blocks| && ValidConfig(c)
    ensures AllRestored(code, blocks, RestoreAll(code, Run(c, Arrivals(code, chunks, blocks, keeps)).1), n * chunks)
      <==> chunks <= c.lines
    ensures chunks <= c.lines ==>
      Recovered(code, c, size, Arrivals(code, chunks, blocks, keeps)) == blocks[..n * chunks]
  {
    UsableTotal(code);
    Arith.MulMono(1, n, chunks);
    var h := Arrivals(code, chunks, blocks, keeps);
    hide Usable, Sized, RestoreAll, Run, AllRestored, Arrivals, Recovered, Recoverable;
    if chunks <= c.lines {
      Losses.Lossless(code, c, size, chunks, blocks, n, keeps);
      LosslessRecoverable(code, chunks, n, keeps);
      StreamRecoveredExactly(code, c, size, chunks, blocks, n, keeps);
    } else {
      FirstLostToEviction(code, c, chunks, blocks, n, keeps);
      NotAllRestored(code, c, chunks, blocks, n, keeps);
    }
  }

  lemma LosslessRecoverable(code: Code, chunks: nat, n: nat, keeps: Loss)
    requires Usable(code) && chunks >= 1 && forall csn, psn :: keeps(csn, psn)
    ensures Recoverable(keeps, Needed(code), code.total, chunks, n)
  {
    UsableTotal(code);
    forall csn: nat, r: nat ensures Arrived(keeps, csn, r) == r { Losses.NothingLost(keeps, csn, r); }
    hide BatchOf, Arrived, Usable;
  }

  lemma NotAllRestored(code: Code, c: Config, chunks: nat, blocks: seq<seq<byte>>, n: nat, keeps: Loss)
    requires Usable(code) && Sized(code, blocks) && c == LineConfig(code, c.lines) && ValidConfig(c)
    requires chunks >= 1 && Fills(blocks, chunks, n) && 1 <= n * chunks <= |blocks|
    requires 1 !in PushOrder(c, Arrivals(code, chunks, blocks, keeps))
    ensures !AllRestored(code, blocks, RestoreAll(code, Run(c, Arrivals(code, chunks, blocks, keeps)).1), n * chunks)
  {
    var out := ArrivalsAre(code, chunks, blocks, n, keeps);
    var h := Arrivals(code, chunks, blocks, keeps);
    hide Usable, Sized, Genuine, Distinct, Arrivals, RestoreAll, Run, PushOrder, AllRestored, Delivered;
    RestoredAre(code, c, blocks, h);
    ChosenAll(code, blocks, PushOrder(c, h), n * chunks);
    assert 1 <= 1 <= n * chunks;
  }
}
