/** Encoder.encode (src/codec/encoder.go:131-178): blocks become numbered chunks, shards, packets. */
module EncodeStage {
  import opened Lists
  import opened Bytes
  import opened Packets
  import opened Chunks
  import opened ErasureCode
  import Arith

  /** Encoder.IncomingSize: what the data shards hold besides the chunk header. */
  function Capacity(code: Code): int { DATA_SIZE * code.data - CHUNK_HEADER }

  function ChunkOf(code: Code, csn: uint64, block: seq<byte>): ChunkV
  {
    ChunkV(code.data, 1, KIND_DATA, csn, block)
  }

  /** The codeword of a block: its shards with parity filled in. */
  function Codeword(code: Code, csn: uint64, block: seq<byte>): seq<Shard>
  {
    code.encode(Shards(ChunkOf(code, csn, block), code.total))
  }

  /** The first chunk ever sent is marked by kind 2. */
  function KindOf(csn: uint64): byte { if csn == 1 then 2 else 1 }

  function PacketAt(csn: uint64, psn: uint32, payload: Shard): Packet
  {
    Packet(2, KindOf(csn), psn, csn, ADDR_FEC, payload)
  }

  function PacketsOf(csn: uint64, w: seq<Shard>): (ps: seq<Packet>)
    requires |w| < TWO32
    ensures |ps| == |w| && forall i :: 0 <= i < |w| ==> ps[i] == PacketAt(csn, i, w[i])
  {
    seq(|w|, i requires 0 <= i < |w| => PacketAt(csn, i, w[i]))
  }

  ghost predicate Usable(code: Code) { Lawful(code) && code.total < 65536 }

  /** The packets of a block as chunk csn. */
  function ChunkPackets(code: Code, csn: uint64, block: seq<byte>): (ps: seq<Packet>)
    requires Usable(code)
    ensures |ps| == code.total && forall i :: 0 <= i < |ps| ==> ps[i].csn == csn && ps[i].psn == i
  {
    CodewordSize(code, csn, block);
    PacketsOf(csn, Codeword(code, csn, block))
  }

  lemma CodewordSize(code: Code, csn: uint64, block: seq<byte>)
    requires Usable(code)
    ensures code.data <= code.total && |Codeword(code, csn, block)| == code.total < 65536
  {
    assert KeepsData(code, Shards(ChunkOf(code, csn, block), code.total));
  }

  ghost predicate Sized(code: Code, blocks: seq<seq<byte>>) {
    |blocks| < TWO64 - 1 && forall i :: 0 <= i < |blocks| ==> |blocks[i]| <= Capacity(code)
  }

  /** Blocks of the capacity just fill the data shards: a block is no longer exactly when its chunk
      fits in them. */
  lemma CapacityExact(code: Code, csn: uint64, block: seq<byte>)
    ensures |block| <= Capacity(code) <==> Fits(ChunkOf(code, csn, block), code.data)
    ensures |block| <= Capacity(code) <==> 22 + |block| <= 1024 * code.data
  {
  }

  /** The shards the data packets of a chunk carry. */
  function DataPayloads(code: Code, ps: seq<Packet>): (s: seq<Shard>)
    requires |ps| >= code.data
    ensures |s| == code.data && forall i :: 0 <= i < code.data ==> s[i] == ps[i].payload
  {
    seq(code.data, i requires 0 <= i < code.data => ps[i].payload)
  }

  /** The packets of a block: version 2, kind 2 for the first chunk and 1 for the others, numbered from
      0, addressed to the codec; the data packets carry the block as a chunk of version 1 and kind 1,
      followed by zeros. */
  lemma PacketsCarry(code: Code, csn: uint64, block: seq<byte>)
    requires Usable(code) && |block| <= Capacity(code)
    ensures var ps := ChunkPackets(code, csn, block);
      && |ps| == code.total >= code.data
      && forall r :: 0 <= r < |ps| ==>
        ps[r].version == 2 && ps[r].kind == (if csn == 1 then 2 else 1) &&
        ps[r].psn == r && ps[r].csn == csn && ps[r].addr == 1
    ensures var ps := ChunkPackets(code, csn, block);
      var b := Flatten(DataPayloads(code, ps));
      && Holds(b, ChunkV(code.data, 1, 1, csn, block))
      && forall i :: 2 <= i < 6 || 22 + |block| <= i < |b| ==> b[i] == 0
  {
    var chunk := ChunkOf(code, csn, block);
    var s := Shards(chunk, code.total);
    CodewordSize(code, csn, block);
    assert KeepsData(code, s);
    hide Usable, Spells;
    var (ps, w) := (ChunkPackets(code, csn, block), Codeword(code, csn, block));
    forall i | 0 <= i < code.data ensures DataPayloads(code, ps)[i] == ShardAt(chunk, i) {
      assert w[i] == w[..code.data][i] == s[..code.data][i];
    }
    assert DataPayloads(code, ps) == FirstShards(chunk, code.data);
    ShardsHold(chunk, code.data);
  }

  /** All packets of a list of blocks, in the order they are made. */
  function Encode(code: Code, blocks: seq<seq<byte>>): (ps: seq<Packet>)
    requires Usable(code) && Sized(code, blocks)
  {
    if blocks == [] then [] else Encode(code, Front(blocks)) + ChunkPackets(code, |blocks|, Last(blocks))
  }

  lemma {:induction false} EncodeLength(code: Code, blocks: seq<seq<byte>>)
    requires Usable(code) && Sized(code, blocks)
    ensures |Encode(code, blocks)| == |blocks| * code.total
  {
    hide ChunkPackets, Usable;
    if blocks != [] {
      EncodeLength(code, Front(blocks));
      Arith.MulSucc(|blocks| - 1, code.total);
    }
  }

  lemma EncodeLast(code: Code, blocks: seq<seq<byte>>)
    requires Usable(code) && Sized(code, blocks) && blocks != []
    ensures Sized(code, Front(blocks))
    ensures Encode(code, blocks) == Encode(code, Front(blocks)) + ChunkPackets(code, |blocks|, Last(blocks))
  {
  }

  /** Packet k of the stream is packet k % total of chunk k / total + 1. */
  lemma {:induction false} EncodeAt(code: Code, blocks: seq<seq<byte>>, i: nat, r: nat)
    requires Usable(code) && Sized(code, blocks) && i < |blocks| && r < code.total
    ensures 0 <= i * code.total + r < |blocks| * code.total
    ensures |Encode(code, blocks)| == |blocks| * code.total
    ensures Encode(code, blocks)[i * code.total + r] == ChunkPackets(code, i + 1, blocks[i])[r]
  {
    hide ChunkPackets, Usable;
    var n := |blocks| - 1;
    var (front, last) := (Encode(code, Front(blocks)), ChunkPackets(code, |blocks|, Last(blocks)));
    Arith.RowsApart(code.total, i, |blocks|);
    EncodeLength(code, blocks);
    EncodeLength(code, Front(blocks));
    assert |front| == n * code.total && Encode(code, blocks) == front + last;
    if i < n {
      Arith.RowsApart(code.total, i, n);
      EncodeAt(code, Front(blocks), i, r);
      assert Front(blocks)[i] == blocks[i];
    } else {
      assert i * code.total + r == |front| + r;
    }
  }

  class Encoder {
    const code: Code
    var csn: uint64
    /** The packets sent to the dispatcher. */
    var dispatcherQueue: seq<Packet>

    constructor (c: Code)
      ensures code == c && csn == 1 && dispatcherQueue == []
    {
      code := c;
      csn := 1;
      dispatcherQueue := [];
    }

    /** One block: dropped if it is longer than the data shards, else sent as the packets of the next
        chunk. Not ok is where Marshal runs past the allocated shards, after which the source is gone. */
    method EncodeBlock(block: array<byte>) returns (ok: bool)
      requires Usable(code) && block.Length < TWO64
      modifies this
      ensures ok <==>
        block.Length > DATA_SIZE * code.data || CHUNK_HEADER + block.Length <= DATA_SIZE * code.total
      ensures !ok || block.Length > DATA_SIZE * code.data ==>
        dispatcherQueue == old(dispatcherQueue) && csn == old(csn)
      ensures ok && block.Length <= DATA_SIZE * code.data ==>
        && csn == Wrap64(old(csn) + 1)
        && dispatcherQueue == old(dispatcherQueue) + ChunkPackets(code, old(csn), old(block[..]))
    {
      Wrap64Id(code.data * DATA_SIZE);
      var chunk, rem := Chunk.NewChunk(code.data, csn, KIND_DATA, block);
      if rem != None {
        return true;
      }
      assert block[..block.Length] == block[..];
      ok := SendChunk(chunk, block[..]);
    }

    /** A chunk goes out as its packets, one a shard. */
    method SendChunk(chunk: Chunk, ghost block: seq<byte>) returns (ok: bool)
      requires Usable(code) && chunk.Valid() && chunk.Value() == ChunkOf(code, csn, block)
      modifies this
      ensures ok <==> CHUNK_HEADER + |block| <= DATA_SIZE * code.total
      ensures !ok ==> dispatcherQueue == old(dispatcherQueue) && csn == old(csn)
      ensures ok ==>
        && csn == Wrap64(old(csn) + 1)
        && dispatcherQueue == old(dispatcherQueue) + ChunkPackets(code, old(csn), block)
    {
      CodewordSize(code, csn, block);
      hide Usable, Wrap64, ShardAt;
      var dst;
      dst, ok := chunk.Marshal(code.total);
      if ok {
        SendPackets(code.encode(Contents(dst)));
        csn := Wrap64(csn + 1);
      }
    }

    /** One packet a shard. */
    method SendPackets(data: seq<Shard>)
      requires |data| < TWO32
      modifies this`dispatcherQueue
      ensures dispatcherQueue == old(dispatcherQueue) + PacketsOf(csn, data)
    {
      ghost var ps := PacketsOf(csn, data);
      for i := 0 to |data|
        invariant dispatcherQueue == old(dispatcherQueue) + ps[..i]
      {
        var packet, rem := PacketV2.NewPacketV2(KindOf(csn), csn, i, ADDR_FEC, data[i]);
        assert data[i] + ZeroBytes(0) == data[i];
        assert rem == None && packet.Value() == ps[i];
        if rem != None {
          continue;
        }
        var value := Packet(packet.version, packet.kind, packet.psn, packet.csn, packet.addr, packet.data[..]);
        dispatcherQueue := dispatcherQueue + [value];
        assert ps[..i + 1] == ps[..i] + [ps[i]];
      }
      assert ps[..|data|] == ps;
    }
  }
}
