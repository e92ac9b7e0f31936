/** Decoder.dispatch over its array of chunks (src/codec/decoder.go:88-178), in place. */
module DispatcherBuffer {
  import opened Lists
  import opened Bytes
  import opened Chunks
  import opened Arith
  import opened Dispatcher

  class Buffer {
    const size: uint64
    var first: uint64
    var last: uint64
    var awaiting: uint64
    var chunks: array<Option<ChunkV>>
    /** Everything sent on the result queue. */
    var resultQueue: seq<seq<byte>>
    /** The chunks those results came from. */
    ghost var delivered: seq<ChunkV>

    ghost predicate Valid()
      reads this, chunks
    {
      && size >= 1 && chunks.Length == size
      && awaiting == Wrap64(last + 1)
      && Inv(size, View())
      && resultQueue == Results(delivered)
    }

    ghost function View(): State
      reads this, chunks
    {
      State(first, last, last + 1, chunks[..])
    }

    constructor (dispatcherSize: uint64)
      requires dispatcherSize >= 1
      ensures Valid() && fresh(chunks) && size == dispatcherSize
      ensures View() == Idle(dispatcherSize, 0) && resultQueue == [] && delivered == []
    {
      size := dispatcherSize;
      first, last, awaiting := 0, 0, 1;
      chunks := new Option<ChunkV>[dispatcherSize](_ => None);
      resultQueue, delivered := [], [];
      new;
      assert chunks[..] == NoChunks(dispatcherSize);
    }

    /** The data of a chunk goes to the results. */
    method Send(chunk: ChunkV)
      modifies this`resultQueue, this`delivered
      ensures resultQueue == old(resultQueue) + [chunk.data]
      ensures delivered == old(delivered) + [chunk]
      ensures old(resultQueue == Results(delivered)) ==> resultQueue == Results(delivered)
    {
      resultQueue := resultQueue + [chunk.data];
      delivered := delivered + [chunk];
    }

    /** One arrival, as the step of the reorder buffer. At the largest csn the awaited number
        wraps to 0, after which every chunk is dropped as detached. */
    method Dispatch(chunk: ChunkV)
      requires Valid()
      modifies this, chunks
      ensures Valid() && chunks == old(chunks)
      ensures View() == Step(size, old(View()), chunk).0
      ensures delivered == old(delivered) + Step(size, old(View()), chunk).1
    {
      if chunk.csn == 0 || chunk.csn <= last {
        return;
      }
      ghost var s := View();
      StepInv(size, s, chunk);
      BeforeMid(size, s, chunk);
      var sent := Place(chunk);
      if sent && first - last != 0 {
        DrainReady();
      }
    }

    /** Sends the awaited chunk, or buffers an early one, sending the chunk it evicts. */
    method Place(chunk: ChunkV) returns (sent: bool)
      requires Valid() && chunk.csn > last
      modifies this, chunks
      ensures chunks == old(chunks) && awaiting == Wrap64(last + 1)
      ensures View() == Before(size, old(View()), chunk)
      ensures resultQueue == Results(delivered)
      ensures var (s, at) := (old(View()), Rem(chunk.csn, size));
        && sent == (chunk.csn == s.awaiting || s.slots[at].Some?)
        && delivered == old(delivered) +
          if chunk.csn == s.awaiting then [chunk] else if s.slots[at].Some? then [s.slots[at].value] else []
    {
      RemIsMod(chunk.csn, size);
      Wrap64Id(last + 1);
      hide Rem, SlotOk, Wrap64, Results;
      first := Max(first, chunk.csn);
      if chunk.csn != awaiting {
        var at := chunk.csn % size;
        sent := chunks[at].Some?;
        if sent {
          var lost := chunks[at].value;
          Send(lost);
          last := lost.csn;
          awaiting := Wrap64(lost.csn + 1);
        }
        chunks[at] := Some(chunk);
      } else {
        sent := true;
        Send(chunk);
        last := chunk.csn;
        awaiting := Wrap64(awaiting + 1);
      }
    }

    /** Sends the awaited chunk from its slot. */
    method Deliver(at: nat)
      requires size >= 1 && chunks.Length == size && at < size && resultQueue == Results(delivered)
      requires chunks[at].Some? && chunks[at].value.csn == awaiting
      modifies this, chunks
      ensures chunks == old(chunks) && awaiting == Wrap64(last + 1) && resultQueue == Results(delivered)
      ensures var csn := old(chunks[at].value.csn);
        View() == State(first, csn, csn + 1, old(chunks[..])[at := None])
      ensures first == old(first) && delivered == old(delivered) + [old(chunks[at].value)]
    {
      Send(chunks[at].value);
      last := chunks[at].value.csn;
      awaiting := Wrap64(awaiting + 1);
      chunks[at] := None;
    }

    /** The inner loop: send chunks while the awaited one is in its slot. */
    method DrainReady()
      requires size >= 1 && chunks.Length == size && awaiting == Wrap64(last + 1)
      requires Mid(size, View()) && resultQueue == Results(delivered)
      modifies this, chunks
      ensures Valid() && chunks == old(chunks)
      ensures View() == Drain(size, old(View()), old(View()).last).0
      ensures delivered == old(delivered) + Drain(size, old(View()), old(View()).last).1
    {
      hide Drain, Inv, Rem;
      ghost var whole := Drain(size, View(), last);
      DrainInv(size, View());
      var i := last;
      while i < first
        invariant chunks == old(chunks) && chunks.Length == size
        invariant i == last <= first == old(first)
        invariant awaiting == Wrap64(last + 1)
        invariant Mid(size, View()) && resultQueue == Results(delivered)
        invariant whole.0 == Drain(size, View(), last).0
        invariant old(delivered) + whole.1 == delivered + Drain(size, View(), last).1
      {
        AwaitedSlot(i, size);
        var at := Wrap64(i + 1) % size;
        if chunks[at].None? || chunks[at].value.csn != awaiting {
          DrainStops(size, View());
          return;
        }
        DrainGoes(size, View(), delivered);
        DeliveredMid(size, View());
        Deliver(at);
        i := i + 1;
      }
      DrainStops(size, View());
    }
  }

  lemma AwaitedSlot(last: uint64, size: uint64)
    requires last + 1 < TWO64 && size >= 1
    ensures Wrap64(last + 1) == last + 1 && Wrap64(last + 1) % size == Rem(last + 1, size)
  {
    RemIsMod(last + 1, size);
  }

  lemma DrainStops(size: nat, s: State)
    requires Shaped(size, s)
    requires var at := Rem(s.last + 1, size);
      s.last >= s.first || s.slots[at].None? || s.slots[at].value.csn != s.awaiting
    ensures Drain(size, s, s.last) == (s, [])
  {
  }

  lemma DrainGoes(size: nat, s: State, sent: seq<ChunkV>)
    requires Shaped(size, s) && s.last < s.first
    requires var at := Rem(s.last + 1, size); s.slots[at].Some? && s.slots[at].value.csn == s.awaiting == s.last + 1
    ensures var at := Rem(s.last + 1, size);
      var s1 := Delivered(s, at);
      && Drain(size, s, s.last).0 == Drain(size, s1, s1.last).0
      && sent + Drain(size, s, s.last).1 == (sent + [s.slots[at].value]) + Drain(size, s1, s1.last).1
  {
  }
}
