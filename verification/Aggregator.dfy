/** Encoder.aggregate and aggregatorFlush (src/codec/encoder.go:83-96, 180-202): an incoming byte
    stream is cut into blocks of a fixed capacity; the timer may flush a shorter one at any time. */
module Aggregator {
  import opened Lists
  import opened Bytes

  datatype Event = Data(bytes: seq<byte>) | Tick

  /** The copying loop: fill the pending block, flush it when it is full, go on with the rest. */
  function Feed(cap: nat, pending: seq<byte>, data: seq<byte>): (r: (seq<byte>, seq<seq<byte>>))
    requires |pending| < cap
    ensures |r.0| < cap
    decreases |data|
  {
    if data == [] then (pending, [])
    else
      var sep := Min(cap - |pending|, |data|);
      var filled := pending + data[..sep];
      if |filled| == cap then
        var (rest, blocks) := Feed(cap, [], data[sep..]);
        (rest, [filled] + blocks)
      else Feed(cap, filled, data[sep..])
  }

  /** One event: what stays pending and the blocks flushed. A tick flushes even an empty block. */
  function Step(cap: nat, pending: seq<byte>, e: Event): (r: (seq<byte>, seq<seq<byte>>))
    requires |pending| < cap
    ensures |r.0| < cap
  {
    match e
    case Data(bytes) => Feed(cap, pending, bytes)
    case Tick => ([], [pending])
  }

  function Run(cap: nat, h: seq<Event>): (r: (seq<byte>, seq<seq<byte>>))
    requires cap >= 1
    ensures |r.0| < cap
  {
    if h == [] then ([], [])
    else
      var (pending, blocks) := Run(cap, Front(h));
      var (pending', more) := Step(cap, pending, Last(h));
      (pending', blocks + more)
  }

  /** The bytes handed to the encoder. */
  function Input(h: seq<Event>): seq<byte>
  {
    if h == [] then [] else Input(Front(h)) + if Last(h).Data? then Last(h).bytes else []
  }

  /** Feeding loses and reorders nothing, and flushes only full blocks. */
  lemma {:induction false} FeedConserves(cap: nat, pending: seq<byte>, data: seq<byte>)
    requires |pending| < cap
    ensures var (rest, blocks) := Feed(cap, pending, data);
      Flatten(blocks) + rest == pending + data && forall i :: 0 <= i < |blocks| ==> |blocks[i]| == cap
    decreases |data|
  {
    if data == [] {
      assert Flatten([]) + pending == pending + data;
    } else {
      var sep := Min(cap - |pending|, |data|);
      var filled := pending + data[..sep];
      assert pending + data == filled + data[sep..];
      if |filled| == cap {
        FeedConserves(cap, [], data[sep..]);
        FullBlock(filled, Feed(cap, [], data[sep..]).1, Feed(cap, [], data[sep..]).0, data[sep..]);
      } else {
        FeedConserves(cap, filled, data[sep..]);
      }
    }
  }

  lemma FullBlock(filled: seq<byte>, blocks: seq<seq<byte>>, rest: seq<byte>, left: seq<byte>)
    requires Flatten(blocks) + rest == [] + left
    ensures Flatten([filled] + blocks) + rest == filled + left
  {
    FlattenAppend([filled], blocks);
    assert Flatten([filled]) == Flatten([]) + filled == filled;
    assert [] + left == left;
    Associative(filled, Flatten(blocks), rest);
  }

  /** For every input and every pattern of ticks the blocks followed by the pending bytes are the
      input, and no block exceeds the capacity. */
  lemma {:induction false} RunConserves(cap: nat, h: seq<Event>)
    requires cap >= 1
    ensures var (pending, blocks) := Run(cap, h);
      Flatten(blocks) + pending == Input(h) && forall i :: 0 <= i < |blocks| ==> |blocks[i]| <= cap
  {
    if h != [] {
      RunConserves(cap, Front(h));
      var (pending, blocks) := Run(cap, Front(h));
      var (pending', more) := Step(cap, pending, Last(h));
      FlattenAppend(blocks, more);
      match Last(h)
      case Data(bytes) =>
        hide Feed, Flatten;
        FeedConserves(cap, pending, bytes);
        Associative(Flatten(blocks), Flatten(more), pending');
        Associative(Flatten(blocks), pending, bytes);
      case Tick =>
        assert Flatten([pending]) == Flatten([]) + pending;
        assert (Flatten(blocks) + pending) + [] == Input(h);
    }
  }

  /** A write sends full blocks only, and loses and reorders no byte: what is short of a block waits. */
  lemma DataSends(cap: nat, h: seq<Event>, data: seq<byte>)
    requires cap >= 1
    ensures var (pending, blocks) := Run(cap, h);
      var (pending', blocks') := Run(cap, h + [Data(data)]);
      && blocks <= blocks' && |pending'| < cap
      && (forall i :: |blocks| <= i < |blocks'| ==> |blocks'[i]| == cap)
      && Flatten(blocks'[|blocks|..]) + pending' == pending + data
  {
    var (pending, blocks) := Run(cap, h);
    assert Front(h + [Data(data)]) == h;
    FeedConserves(cap, pending, data);
    var more := Feed(cap, pending, data).1;
    assert Run(cap, h + [Data(data)]).1 == blocks + more;
    hide Feed, Run;
    assert (blocks + more)[|blocks|..] == more;
  }

  /** A timer flush sends one block, of all the bytes pending before it, and leaves nothing pending. */
  lemma TickSends(cap: nat, h: seq<Event>)
    requires cap >= 1
    ensures Run(cap, h + [Tick]) == ([], Run(cap, h).1 + [Run(cap, h).0])
  {
    assert Front(h + [Tick]) == h;
  }

  /** So all input before a timer flush is in blocks after it. */
  lemma TickFlushes(cap: nat, h: seq<Event>)
    requires cap >= 1
    ensures Flatten(Run(cap, h + [Tick]).1) == Input(h)
  {
    TickSends(cap, h);
    RunConserves(cap, h + [Tick]);
    assert Front(h + [Tick]) == h;
    assert Flatten(Run(cap, h + [Tick]).1) + [] == Flatten(Run(cap, h + [Tick]).1);
    assert Input(h) + [] == Input(h);
  }

  /** There is only one way to cut bytes into full blocks with less than a block to spare. */
  lemma {:induction false} FeedUnique(
      cap: nat, pending: seq<byte>, data: seq<byte>, rest: seq<byte>, blocks: seq<seq<byte>>)
    requires |pending| < cap && |rest| < cap && forall i :: 0 <= i < |blocks| ==> |blocks[i]| == cap
    requires Flatten(blocks) + rest == pending + data
    ensures Feed(cap, pending, data) == (rest, blocks)
  {
    FeedConserves(cap, pending, data);
    var (r, bs) := Feed(cap, pending, data);
    SameBlocks(cap, bs, r, blocks, rest);
  }

  lemma {:induction false} SameBlocks(cap: nat, a: seq<seq<byte>>, x: seq<byte>, b: seq<seq<byte>>, y: seq<byte>)
    requires |x| < cap && |y| < cap && Flatten(a) + x == Flatten(b) + y
    requires forall i :: 0 <= i < |a| ==> |a[i]| == cap
    requires forall i :: 0 <= i < |b| ==> |b[i]| == cap
    ensures a == b && x == y
  {
    if a == [] || b == [] {
      if a != [] { LongerThan(cap, a); }
      if b != [] { LongerThan(cap, b); }
      assert [] + x == x && [] + y == y;
    } else {
      FlattenHead(a);
      FlattenHead(b);
      var whole := Flatten(a) + x;
      assert a[0] == whole[..cap] == b[0];
      Associative(a[0], Flatten(a[1..]), x);
      Associative(b[0], Flatten(b[1..]), y);
      assert Flatten(a[1..]) + x == whole[cap..] == Flatten(b[1..]) + y;
      SameBlocks(cap, a[1..], x, b[1..], y);
      assert a == [a[0]] + a[1..] && b == [b[0]] + b[1..];
    }
  }

  lemma LongerThan(cap: nat, a: seq<seq<byte>>)
    requires a != [] && forall i :: 0 <= i < |a| ==> |a[i]| == cap
    ensures |Flatten(a)| >= cap
  {
    assert Last(a) == a[|a| - 1];
  }

  lemma FlattenHead(a: seq<seq<byte>>)
    requires a != []
    ensures Flatten(a) == a[0] + Flatten(a[1..])
  {
    FlattenAppend([a[0]], a[1..]);
    assert a == [a[0]] + a[1..];
    assert Flatten([a[0]]) == Flatten([]) + a[0] == a[0];
  }

  /** Where the stream is cut into writes makes no difference to the blocks. */
  lemma {:induction false} FeedAppend(cap: nat, pending: seq<byte>, a: seq<byte>, b: seq<byte>)
    requires |pending| < cap
    ensures var (mid, blocks) := Feed(cap, pending, a);
      var (rest, more) := Feed(cap, mid, b);
      Feed(cap, pending, a + b) == (rest, blocks + more)
    decreases |a|
  {
    var (mid, blocks) := Feed(cap, pending, a);
    var (rest, more) := Feed(cap, mid, b);
    assert [] + more == more;
    if a == [] {
      assert a + b == b;
    } else {
      var sep := Min(cap - |pending|, |a|);
      var filled := pending + a[..sep];
      if |filled| == cap {
        assert (a + b)[..sep] == a[..sep] && (a + b)[sep..] == a[sep..] + b;
        FeedAppend(cap, [], a[sep..], b);
        Associative([filled], Feed(cap, [], a[sep..]).1, more);
      } else {
        FillOn(cap, pending, a, b);
        assert a[..sep] == a && a[sep..] == [];
      }
    }
  }

  lemma FillOn(cap: nat, pending: seq<byte>, a: seq<byte>, b: seq<byte>)
    requires |pending + a| < cap
    ensures Feed(cap, pending, a + b) == Feed(cap, pending + a, b)
    ensures Feed(cap, pending, a) == (pending + a, [])
  {
    if a == [] {
      assert pending + a == pending && a + b == b;
    } else {
      assert a[..|a|] == a && a[|a|..] == [];
      var sep := Min(cap - |pending|, |a + b|);
      if b == [] {
        assert a + b == a;
      } else {
        var sep' := Min(cap - |pending + a|, |b|);
        assert pending + (a + b)[..sep] == (pending + a) + b[..sep'];
        assert (a + b)[sep..] == b[sep'..];
      }
    }
  }

  lemma FeedTurn(cap: nat, pending: seq<byte>, data: seq<byte>, sent: seq<seq<byte>>)
    requires |pending| < cap && data != []
    ensures var sep := Min(cap - |pending|, |data|);
      var filled := pending + data[..sep];
      var left := if |filled| == cap then [] else filled;
      var flushed := if |filled| == cap then [filled] else [];
      && Feed(cap, pending, data).0 == Feed(cap, left, data[sep..]).0
      && sent + Feed(cap, pending, data).1 == (sent + flushed) + Feed(cap, left, data[sep..]).1
  {
  }

  class Aggregator {
    const cap: nat
    var buf: array<byte>
    var len: nat
    /** The blocks sent on the encode queue. */
    var encodeQueue: seq<array<byte>>

    ghost predicate Valid()
      reads this
    {
      cap >= 1 && buf.Length == cap && len < cap && buf !in encodeQueue
    }

    ghost function Pending(): seq<byte>
      reads this, buf
      requires Valid()
    {
      buf[..len]
    }

    static ghost function Blocks(q: seq<array<byte>>): (b: seq<seq<byte>>)
      reads q
      ensures |b| == |q| && forall i :: 0 <= i < |q| ==> b[i] == q[i][..]
    {
      if q == [] then [] else Blocks(Front(q)) + [Last(q)[..]]
    }

    constructor (incomingSize: nat)
      requires incomingSize >= 1
      ensures Valid() && fresh(buf) && cap == incomingSize && Pending() == [] && encodeQueue == []
    {
      cap := incomingSize;
      buf := new byte[incomingSize](_ => 0);
      len := 0;
      encodeQueue := [];
    }

    /** Sends a copy of the buffer and empties it; the buffer itself is used again. */
    method Flush()
      requires cap >= 1 && buf.Length == cap && len <= cap && buf !in encodeQueue
      modifies this`len, this`encodeQueue
      ensures Valid() && Pending() == [] && len == 0
      ensures |encodeQueue| == |old(encodeQueue)| + 1 && Front(encodeQueue) == old(encodeQueue)
      ensures fresh(Last(encodeQueue)) && Last(encodeQueue)[..] == old(buf[..len])
    {
      var block := new byte[len](_ => 0);
      var n := CopyInto(block, 0, buf[..len]);
      len := 0;
      encodeQueue := encodeQueue + [block];
    }

    method Tick()
      requires Valid()
      modifies this`len, this`encodeQueue
      ensures Valid() && Pending() == []
      ensures Blocks(encodeQueue) == old(Blocks(encodeQueue)) + [old(Pending())]
      ensures (Pending(), Blocks(encodeQueue)) ==
        (Step(cap, old(Pending()), Event.Tick).0,
         old(Blocks(encodeQueue)) + Step(cap, old(Pending()), Event.Tick).1)
    {
      ghost var sent := Blocks(encodeQueue);
      Flush();
      assert Blocks(encodeQueue) == sent + [Last(encodeQueue)[..]];
    }

    /** One turn of the copying loop: at least one byte goes to the buffer, which is sent if full. */
    method Fill(data: seq<byte>) returns (rest: seq<byte>)
      requires Valid() && data != []
      modifies this`len, this`encodeQueue, buf
      ensures Valid() && buf == old(buf) && old(encodeQueue) <= encodeQueue
      ensures var sep := Min(cap - old(len), |data|);
        var filled := old(Pending()) + data[..sep];
        && rest == data[sep..] && |rest| < |data|
        && Pending() == (if |filled| == cap then [] else filled)
        && Blocks(encodeQueue) == old(Blocks(encodeQueue)) + if |filled| == cap then [filled] else []
    {
      ghost var queue, sent := encodeQueue, Blocks(encodeQueue);
      var sep := Min(cap - len, |data|);
      var n := CopyInto(buf, len, data[..sep]);
      len := len + sep;
      rest := data[sep..];
      assert buf[..len] == old(Pending()) + data[..sep];
      assert Blocks(queue) == sent && sent + [] == sent;
      if len == cap {
        Flush();
        assert Blocks(encodeQueue) == Blocks(queue) + [Last(encodeQueue)[..]];
        assert Blocks(queue) == sent;
      }
    }

    /** One write to the encoder. Blocks sent before are not touched. */
    method Aggregate(bytes: seq<byte>)
      requires Valid()
      modifies this`len, this`encodeQueue, buf
      ensures Valid() && buf == old(buf) && old(encodeQueue) <= encodeQueue
      ensures Pending() == Feed(cap, old(Pending()), bytes).0
      ensures Blocks(encodeQueue) == old(Blocks(encodeQueue)) + Feed(cap, old(Pending()), bytes).1
      ensures (Pending(), Blocks(encodeQueue)) ==
        (Step(cap, old(Pending()), Event.Data(bytes)).0,
         old(Blocks(encodeQueue)) + Step(cap, old(Pending()), Event.Data(bytes)).1)
    {
      ghost var whole := Feed(cap, Pending(), bytes);
      ghost var sent := Blocks(encodeQueue);
      var data := bytes;
      while |data| > 0
        invariant Valid() && buf == old(buf)
        invariant old(encodeQueue) <= encodeQueue
        invariant whole.0 == Feed(cap, Pending(), data).0
        invariant sent + whole.1 == Blocks(encodeQueue) + Feed(cap, Pending(), data).1
        decreases |data|
      {
        hide Feed, Blocks;
        ghost var before, pending, was := Blocks(encodeQueue), Pending(), data;
        data := Fill(data);
        FeedTurn(cap, pending, was, before);
      }
    }
  }
}
