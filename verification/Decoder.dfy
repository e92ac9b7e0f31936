/** The outer stages of the decoder, Decoder.decode and Decoder.restore
    (src/codec/decoder.go:180-220, 323-359), and the four stages one after the other. */
module Decoder {
  import opened Lists
  import opened Bytes
  import opened Packets
  import opened Chunks
  import opened ErasureCode
  import opened Assembler
  import Dispatcher

  /** A frame: dropped unless it parses and is addressed to the codec. */
  function Accept(digest: Digest, b: seq<byte>): (ps: seq<Packet>)
  {
    var p := Parse(digest, b);
    if p.Some? && p.value.addr == ADDR_FEC then [p.value] else []
  }

  function Payloads(v: Vector): (w: View)
    ensures |w| == |v|
    ensures forall i :: 0 <= i < |v| ==>
      w[i] == if v[i].Some? then Some(v[i].value.payload) else None
  {
    seq(|v|, i requires 0 <= i < |v| => if v[i].Some? then Some(v[i].value.payload) else None)
  }

  /** A vector: dropped unless its data shards can be rebuilt and hold a chunk. */
  function Restore(code: Code, v: Vector): (cs: seq<ChunkV>)
  {
    var shards := code.reconstruct(Payloads(v));
    if shards.None? then []
    else
      var chunk := ParseChunk(shards.value);
      if chunk.None? then [] else [chunk.value]
  }

  /** A frame comes through exactly when its length and digest are right and its address is 1; it
      then does as the packet it is laid out as. */
  lemma AcceptExact(digest: Digest, b: seq<byte>, p: Packet)
    ensures Accept(digest, b) == [p] <==> LaidOut(digest, b, p) && p.addr == 1
    ensures Accept(digest, b) != [] <==>
      |b| == 1056 && b[1048..] == digest(b[..1048]) && Spells(b[16..24], 1)
  {
    FrameExact(digest, b, p);
    if |b| == 1056 {
      PowValues();
      SpellsExact(b[16..24], 1);
      assert b[..HEADER_SIZE + DATA_SIZE] == b[..1048] && b[HEADER_SIZE + DATA_SIZE..] == b[1048..];
    }
    hide LaidOut, Spells, FromLE;
  }

  /** A vector is restored exactly when its data shards can be rebuilt, and to the chunk they hold. */
  lemma RestoreExact(code: Code, v: Vector, x: ChunkV)
    ensures Restore(code, v) == [x] <==>
      var shards := code.reconstruct(Payloads(v));
      && shards.Some? && shards.value != [] && x.parts == |shards.value|
      && |x.data| < TWO64 && Holds(Flatten(shards.value), x)
    ensures |Restore(code, v)| <= 1
  {
    var shards := code.reconstruct(Payloads(v));
    if shards.Some? {
      ChunkExact(shards.value, x);
    }
    hide ParseChunk, Holds;
  }

  function AcceptAll(digest: Digest, frames: seq<seq<byte>>): seq<Packet>
  {
    if frames == [] then [] else AcceptAll(digest, Front(frames)) + Accept(digest, Last(frames))
  }

  function RestoreAll(code: Code, vs: seq<Vector>): seq<ChunkV>
  {
    if vs == [] then [] else RestoreAll(code, Front(vs)) + Restore(code, Last(vs))
  }

  /** decode, assembly, restore and dispatch in sequence: the results of a history of frames. */
  function Decode(digest: Digest, c: Config, code: Code, size: nat, frames: seq<seq<byte>>): seq<seq<byte>>
    requires ValidConfig(c) && size >= 1
  {
    var vectors := Assembler.Run(c, AcceptAll(digest, frames)).1;
    Dispatcher.Results(Dispatcher.Run(size, RestoreAll(code, vectors)).1)
  }

  /** The outer stages keep nothing between messages. */
  lemma OneMore(digest: Digest, code: Code, frames: seq<seq<byte>>, b: seq<byte>, vs: seq<Vector>, v: Vector)
    ensures AcceptAll(digest, frames + [b]) == AcceptAll(digest, frames) + Accept(digest, b)
    ensures RestoreAll(code, vs + [v]) == RestoreAll(code, vs) + Restore(code, v)
  {
    assert Front(frames + [b]) == frames && Front(vs + [v]) == vs;
  }

  /** Marshalled packets of the codec all come through. */
  lemma {:induction false} FramesAccepted(digest: Digest, ps: seq<Packet>)
    requires forall i :: 0 <= i < |ps| ==> ps[i].addr == ADDR_FEC
    ensures AcceptAll(digest, Frames(digest, ps)) == ps
  {
    hide Frame, Parse;
    if ps != [] {
      var f := Frames(digest, ps);
      assert Front(f) == Frames(digest, Front(ps));
      FramesAccepted(digest, Front(ps));
      PacketRoundTrip(digest, Last(ps));
      assert ps == Front(ps) + [Last(ps)];
    }
  }

  class Decoding {
    const digest: Digest
    /** The packets sent to the assembler. */
    var assemblyQueue: seq<Packet>

    constructor (d: Digest)
      ensures digest == d && assemblyQueue == []
    {
      digest := d;
      assemblyQueue := [];
    }

    method Receive(b: array<byte>)
      modifies this
      ensures assemblyQueue == old(assemblyQueue) + Accept(digest, b[..])
    {
      if b.Length != PACKET_SIZE {
        return;
      }
      var packet := new PacketV2();
      var ok := packet.Unmarshal(digest, b);
      if !ok {
        return;
      }
      if packet.addr != ADDR_FEC {
        return;
      }
      var value := Packet(packet.version, packet.kind, packet.psn, packet.csn, packet.addr, packet.data[..]);
      assemblyQueue := assemblyQueue + [value];
    }
  }

  class Restorer {
    const code: Code
    /** The chunks sent to the dispatcher. */
    var dispatchQueue: seq<ChunkV>

    constructor (c: Code)
      ensures code == c && dispatchQueue == []
    {
      code := c;
      dispatchQueue := [];
    }

    method Rebuild(v: Vector)
      requires code.reconstruct(Payloads(v)).Some? ==> |code.reconstruct(Payloads(v)).value| < TWO64
      modifies this
      ensures dispatchQueue == old(dispatchQueue) + Restore(code, v)
    {
      var data: View := [];
      for i := 0 to |v|
        invariant data == Payloads(v)[..i]
      {
        data := data + [if v[i].Some? then Some(v[i].value.payload) else None];
      }
      assert data == Payloads(v);
      var shards := code.reconstruct(data);
      if shards.None? {
        return;
      }
      var bufs := Materialise(shards.value);
      var chunk := new Chunk();
      var ok := chunk.Unmarshal(bufs);
      if !ok {
        return;
      }
      var value := ChunkV(chunk.parts, chunk.version, chunk.kind, chunk.csn, chunk.data[..]);
      dispatchQueue := dispatchQueue + [value];
    }

    static method NewShard(shard: Shard) returns (b: array<byte>)
      ensures fresh(b) && b[..] == shard
    {
      b := new byte[DATA_SIZE](_ => 0);
      var n := CopyInto(b, 0, shard);
      assert b[..] == shard[..n] == shard;
    }

    /** The shards the library hands back, as buffers. */
    static method Materialise(shards: seq<Shard>) returns (bufs: seq<array<byte>>)
      ensures fresh(bufs) && AllShards(bufs) && Contents(bufs) == shards
    {
      hide Contents;
      bufs := [];
      for i := 0 to |shards|
        invariant fresh(bufs) && AllShards(bufs) && |bufs| == i
        invariant forall k :: 0 <= k < i ==> bufs[k][..] == shards[k]
      {
        var b := NewShard(shards[i]);
        bufs := bufs + [b];
      }
      assert Contents(bufs) == shards;
    }
  }
}
