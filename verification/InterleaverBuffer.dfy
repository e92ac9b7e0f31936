/** Encoder.dispatch over its array of packets (src/codec/encoder.go:98-129), in place. */
module InterleaverBuffer {
  import opened Lists
  import opened Bytes
  import opened Packets
  import opened Arith
  import opened Interleaver

  class Buffer {
    const digest: Digest
    const chunks: nat
    const perChunk: nat
    var length: nat
    var buf: array<Option<Packet>>
    /** Everything sent on the result queue, and the packets it came from. */
    var resultQueue: seq<seq<byte>>
    ghost var sent: seq<Packet>
    /** The packets of the batch that is being filled. */
    ghost var batch: seq<Packet>

    ghost predicate Valid()
      reads this, buf
    {
      && chunks >= 1 && perChunk >= 1 && buf.Length == chunks * perChunk
      && chunks * (chunks * perChunk) < TWO64
      && length == |batch| < buf.Length
      && Filled(buf[..], batch)
      && resultQueue == Frames(digest, sent)
    }

    /** Every slot holds its packet of the batch, or nothing if that has not come yet. */
    ghost predicate Filled(b: seq<Option<Packet>>, batch: seq<Packet>)
      requires chunks >= 1
    {
      forall i :: 0 <= i < |b| ==> SlotOk(b, batch, i)
    }

    ghost predicate SlotOk(b: seq<Option<Packet>>, batch: seq<Packet>, i: nat)
      requires chunks >= 1 && i < |b|
    {
      var o := Origin(chunks, perChunk, i);
      b[i] == if o < |batch| then Some(batch[o]) else None
    }

    constructor (d: Digest, dispatcherSize: nat, totalParts: nat)
      requires dispatcherSize >= 1 && totalParts >= 2
      requires dispatcherSize * (dispatcherSize * totalParts) < TWO64
      ensures Valid() && fresh(buf) && digest == d && chunks == dispatcherSize && perChunk == totalParts
      ensures batch == [] && sent == [] && resultQueue == []
    {
      digest, chunks, perChunk := d, dispatcherSize, totalParts;
      MulMono(1, dispatcherSize, totalParts);
      length := 0;
      buf := new Option<Packet>[dispatcherSize * totalParts](_ => None);
      resultQueue, sent, batch := [], [], [];
      new;
      forall i | 0 <= i < buf.Length ensures SlotOk(buf[..], batch, i) {
        SlotsCovered(chunks, perChunk, i);
      }
    }

    /** One packet. Its slot is free; when it is the last of its batch the whole batch is sent. */
    method Dispatch(packet: Packet)
      requires Valid()
      modifies this, buf
      ensures Valid() && buf == old(buf)
      ensures batch == Step(chunks, perChunk, old(batch), packet).0
      ensures sent == old(sent) + Step(chunks, perChunk, old(batch), packet).1
    {
      var size := chunks * perChunk;
      var at := (chunks * length + length / perChunk) % size;
      SlotsDistinct(chunks, perChunk, length);
      assert at == SlotOf(chunks, perChunk, length);
      assert SlotOk(buf[..], batch, at) && buf[at] == None;
      ghost var before := buf[..];
      buf[at] := Some(packet);
      length := length + 1;
      forall i | 0 <= i < buf.Length ensures SlotOk(buf[..], batch + [packet], i) {
        assert SlotOk(before, batch, i);
        SlotsCovered(chunks, perChunk, i);
      }
      batch := batch + [packet];
      if length == size {
        Flush();
      }
    }

    /** Sends the full buffer slot by slot. The branch that skips an empty slot is never taken. */
    method Flush()
      requires chunks >= 1 && perChunk >= 1 && buf.Length == chunks * perChunk == length == |batch|
      requires chunks * (chunks * perChunk) < TWO64
      requires Filled(buf[..], batch) && resultQueue == Frames(digest, sent)
      modifies this, buf
      ensures Valid() && buf == old(buf) && batch == []
      ensures sent == old(sent) + Transposed(chunks, perChunk, old(batch))
    {
      ghost var all := Transposed(chunks, perChunk, batch);
      for i := 0 to buf.Length
        invariant buf == old(buf) && batch == old(batch)
        invariant sent == old(sent) + all[..i] && resultQueue == Frames(digest, sent)
        invariant forall j :: 0 <= j < i ==> buf[j] == None
        invariant forall j :: i <= j < buf.Length ==> buf[j] == old(buf[j])
      {
        SlotsCovered(chunks, perChunk, i);
        assert SlotOk(old(buf[..]), batch, i);
        assert buf[i] == Some(all[i]);
        if buf[i] == None {
          continue;
        }
        resultQueue := resultQueue + [Frame(digest, buf[i].value)];
        sent := sent + [buf[i].value];
        assert all[..i + 1] == all[..i] + [all[i]];
        buf[i] := None;
      }
      assert all[..buf.Length] == all;
      length, batch := 0, [];
      MulMono(1, chunks, perChunk);
      forall i | 0 <= i < buf.Length ensures SlotOk(buf[..], batch, i) {
        SlotsCovered(chunks, perChunk, i);
      }
    }
  }
}
