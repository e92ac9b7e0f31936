/** Streams in which whole chunks are lost, over an in-order link without interleaving. */
module Gaps {
  import opened Lists
  import opened Bytes
  import opened Packets
  import opened Chunks
  import opened ErasureCode
  import opened EncodeStage
  import opened Assembler
  import opened AssemblerCounts
  import opened AssemblerOrder
  import opened Decoder
  import opened EndToEnd
  import Dispatcher
  import DispatcherOrder

  /** Packets arriving in csn order with any losses, of whole chunks too: exactly the chunks with
      enough packets are restored, in order; if every gap among them is followed by more chunks in a
      row than the dispatcher buffers, exactly their blocks are delivered. */
  lemma SurvivorsDelivered(code: Code, c: Config, size: nat, blocks: seq<seq<byte>>, h: seq<Packet>,
                           runs: seq<seq<ChunkV>>)
    requires Usable(code) && Sized(code, blocks) && c == LineConfig(code, c.lines) && c.lines >= 1
    requires size >= 1
    requires Genuine(code, blocks, h) && Distinct(h) && Nondecreasing(h)
    ensures var survivors := Completed(Effective(c), h);
      && BlockNumbers(survivors, |blocks|) && Ascending(survivors)
      && RestoreAll(code, Assembler.Run(c, h).1) == Chosen(code, blocks, survivors)
      && (Flatten(runs) == Chosen(code, blocks, survivors) && DispatcherOrder.GapsClose(size, 0, runs) ==>
          Recovered(code, c, size, h) == Dispatcher.Results(Chosen(code, blocks, survivors)))
  {
    UsableTotal(code);
    var c' := Effective(c);
    GenuineBounds(code, c', blocks, h);
    RunEffective(c, h);
    PushOrderEffective(c, h);
    OrderedArrivals(c', h);
    CompletedAscending(c', h);
    hide Restore, Usable, Genuine, Distinct, Sized, Completed, PushOrder, Assembler.Run, RestoreAll;
    RestoredAre(code, c, blocks, h);
    var survivors := Completed(c', h);
    if Flatten(runs) == Chosen(code, blocks, survivors) && DispatcherOrder.GapsClose(size, 0, runs) {
      DispatcherOrder.GapsAreSkipped(size, 0, runs);
    }
  }
}
