/** Exactly which losses of one interleaver batch are made good. */
module BatchExact {
  import opened Bytes
  import opened ErasureCode
  import opened EncodeStage
  import opened Arith
  import opened AssemblerCounts
  import opened AssemblerOrder
  import opened EndToEnd
  import opened Recovery
  import opened RecoveryExact
  import opened StreamExact
  import opened Decoder
  import Assembler
  import Interleaver

  /** One batch over an in-order link, any losses: all its blocks come out in order if and only if
      each chunk keeps the packets it needs and no chunk reaches its last needed packet in an earlier
      row than a lower chunk. */
  lemma BatchRecoveredExactly(code: Code, c: Assembler.Config, size: nat, chunks: nat, blocks: seq<seq<byte>>,
                              keeps: Loss)
    requires Usable(code) && Sized(code, blocks) && c == LineConfig(code, c.lines)
    requires size >= 1 && 1 <= chunks <= c.lines && |blocks| == chunks
    ensures Recovered(code, c, size, Arrivals(code, chunks, blocks, keeps)) == blocks <==>
      Recoverable(keeps, Needed(code), code.total, chunks, 1)
  {
    UsableTotal(code);
    hide Usable, Recovered, Genuine, Distinct, Sized, Arrivals, Recoverable, Completed, Delivered, Interleaver.RowByRow,
      AllInTurn, PushOrder, Assembler.Run, OpenLines;
    assert Fills(blocks, chunks, 1) && 1 * chunks == chunks;
    var out := ArrivalsAre(code, chunks, blocks, 1, keeps);
    var h := Delivered(keeps, out);
    var c' := Effective(c);
    PushedExactly(c', keeps, chunks, out, 1);
    RecoveredExactly(code, c, size, blocks, h);
    GenuineOwnLines(code, c', blocks, h);
    if Recovered(code, c, size, h) == blocks {
      InOrderInTurn(c', h, chunks);
      OrderedCompletion(c', h);
    }
    if Recoverable(keeps, Needed(code), code.total, chunks, 1) {
      RecoverableDelivers(code, c, size, chunks, blocks, keeps);
    }
  }

  lemma RecoverableDelivers(code: Code, c: Assembler.Config, size: nat, chunks: nat, blocks: seq<seq<byte>>,
                            keeps: Loss)
    requires Usable(code) && Sized(code, blocks) && c == LineConfig(code, c.lines)
    requires size >= 1 && 1 <= chunks <= c.lines && |blocks| == chunks
    requires Recoverable(keeps, Needed(code), code.total, chunks, 1)
    ensures Recovered(code, c, size, Arrivals(code, chunks, blocks, keeps)) == blocks
  {
    UsableTotal(code);
    hide Usable, Recovered, Sized, Arrivals, EnoughArrive, RowsInOrder;
    assert Fills(blocks, chunks, 1) && 1 * chunks == chunks;
    LossesMadeGood(code, c, size, chunks, blocks, 1, keeps);
    assert blocks[..chunks] == blocks;
  }

  /** All but the very first packet gets through. */
  function FirstLost(): Loss { (csn: nat, psn: nat) => csn != 1 || psn != 0 }

  lemma {:induction false} FirstLostArrived(csn: nat, r: nat)
    ensures Arrived(FirstLost(), csn, r) == if csn == 1 && r > 0 then r - 1 else r
  {
    if r > 0 { FirstLostArrived(csn, r - 1); }
  }

  /** So the redundancy does not cover every loss: with two or more chunks to a batch, losing the
      first packet alone costs a chunk of the stream, however many parity shards there are. */
  lemma OneLossCostsABlock(code: Code, c: Assembler.Config, size: nat, chunks: nat, blocks: seq<seq<byte>>, n: nat)
    requires Usable(code) && Sized(code, blocks) && c == LineConfig(code, c.lines)
    requires size >= 1 && 2 <= chunks <= c.lines && Fills(blocks, chunks, n) && n >= 1
    ensures 0 <= n * chunks <= |blocks| && Assembler.ValidConfig(c)
    ensures !AllRestored(code, blocks,
      RestoreAll(code, Assembler.Run(c, Arrivals(code, chunks, blocks, FirstLost())).1), n * chunks)
    ensures |blocks| == chunks ==> Recovered(code, c, size, Arrivals(code, chunks, blocks, FirstLost())) != blocks
  {
    UsableTotal(code);
    NotRecoverable(Needed(code), code.total, chunks, n);
    hide Usable, Recovered, Arrivals, Sized, Recoverable, RestoreAll, Assembler.Run, AllRestored;
    StreamRecoveredExactly(code, c, size, chunks, blocks, n, FirstLost());
    if |blocks| == chunks {
      NotRecoverable(Needed(code), code.total, chunks, 1);
      BatchRecoveredExactly(code, c, size, chunks, blocks, FirstLost());
    }
  }

  lemma NotRecoverable(data: nat, total: nat, chunks: nat, n: nat)
    requires 2 <= data <= total && chunks >= 2 && n >= 1
    ensures !Recoverable(FirstLost(), data, total, chunks, n)
  {
    hide FirstLost;
    MulMono(1, n, chunks);
    FirstLostArrived(1, data);
    FirstLostArrived(2, data);
    ModUnique(0, chunks, 0, 0);
    ModUnique(1, chunks, 0, 1);
    assert BatchOf(chunks, 1) == BatchOf(chunks, 2);
  }
}
