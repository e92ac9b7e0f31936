/** The wire packet of src/codec/packet_v2.go. */
module Packets {
  import opened Lists
  import opened Bytes

  const HEADER_SIZE: nat := 24
  const HASH_SIZE: nat := 8
  const PACKET_SIZE: nat := HEADER_SIZE + DATA_SIZE + HASH_SIZE
  const ADDR_FEC: uint64 := 1
  const KIND_DATA: byte := 1

  /** The truncated digest is a parameter: any function from bytes to 8 bytes. */
  type Hash8 = s: seq<byte> | |s| == HASH_SIZE witness [0, 0, 0, 0, 0, 0, 0, 0]
  type Digest = seq<byte> -> Hash8

  datatype Packet = Packet(version: byte, kind: byte, psn: uint32, csn: uint64, addr: uint64, payload: Shard)

  function Header(p: Packet): (b: seq<byte>)
    ensures |b| == HEADER_SIZE
  {
    [p.version, p.kind, 0, 0] + ToLE(p.psn, 4) + ToLE(p.csn, 8) + ToLE(p.addr, 8)
  }

  /** The bytes of a packet: header, payload, digest of both. */
  function Frame(digest: Digest, p: Packet): (b: seq<byte>)
    ensures |b| == PACKET_SIZE
  {
    Header(p) + p.payload + digest(Header(p) + p.payload)
  }

  function Frames(digest: Digest, ps: seq<Packet>): (b: seq<seq<byte>>)
    ensures |b| == |ps| && forall i :: 0 <= i < |ps| ==> b[i] == Frame(digest, ps[i])
  {
    seq(|ps|, i requires 0 <= i < |ps| => Frame(digest, ps[i]))
  }

  /** The packet a frame holds, if its length and digest are right. */
  function Parse(digest: Digest, b: seq<byte>): Option<Packet>
  {
    if |b| != PACKET_SIZE || digest(b[..HEADER_SIZE + DATA_SIZE]) != b[HEADER_SIZE + DATA_SIZE..] then None
    else Some(Fields(b))
  }

  function Fields(b: seq<byte>): Packet
    requires |b| == PACKET_SIZE
  {
    ToFromLE(b[4..8]); ToFromLE(b[8..16]); ToFromLE(b[16..24]); PowValues();
    Packet(b[0], b[1], FromLE(b[4..8]), FromLE(b[8..16]), FromLE(b[16..24]), b[HEADER_SIZE..HEADER_SIZE + DATA_SIZE])
  }

  /** The first 1024 bytes, zero padded. */
  function FirstPayload(data: seq<byte>): Shard
  {
    if |data| <= DATA_SIZE then data + ZeroBytes(DATA_SIZE - |data|) else data[..DATA_SIZE]
  }

  lemma HeaderSlices(p: Packet)
    ensures var b := Header(p);
      b[0] == p.version && b[1] == p.kind && b[2] == 0 && b[3] == 0 &&
      b[4..8] == ToLE(p.psn, 4) && b[8..16] == ToLE(p.csn, 8) && b[16..24] == ToLE(p.addr, 8)
  {
  }

  /** Every packet survives the wire. */
  lemma PacketRoundTrip(digest: Digest, p: Packet)
    ensures Parse(digest, Frame(digest, p)) == Some(p)
  {
    var b := Frame(digest, p);
    var h := Header(p);
    HeaderSlices(p);
    hide Header, ToLE, FromLE;
    assert b[..HEADER_SIZE + DATA_SIZE] == h + p.payload;
    assert b[HEADER_SIZE + DATA_SIZE..] == digest(h + p.payload);
    FrameFields(p, b);
  }

  lemma FrameFields(p: Packet, b: seq<byte>)
    requires |b| == PACKET_SIZE && b[..HEADER_SIZE + DATA_SIZE] == Header(p) + p.payload
    ensures Fields(b) == p
  {
    var h := Header(p);
    HeaderSlices(p);
    assert b[HEADER_SIZE..HEADER_SIZE + DATA_SIZE] == p.payload;
    assert b[..HEADER_SIZE] == h;
    assert b[4..8] == h[4..8] && b[8..16] == h[8..16] && b[16..24] == h[16..24];
    PowValues();
    FromToLE(p.psn, 4); FromToLE(p.csn, 8); FromToLE(p.addr, 8);
    hide Header, ToLE;
  }

  /** The header of the packet a frame holds: the frame's own, but for the reserved bytes. */
  lemma HeaderOfFields(b: seq<byte>)
    requires |b| == PACKET_SIZE
    ensures Header(Fields(b)) == [b[0], b[1], 0, 0] + b[4..HEADER_SIZE]
  {
    ToFromLE(b[4..8]); ToFromLE(b[8..16]); ToFromLE(b[16..24]);
    hide ToLE, FromLE;
    assert b[4..HEADER_SIZE] == b[4..8] + b[8..16] + b[16..24];
  }

  lemma HeaderSame(b: seq<byte>)
    requires |b| == PACKET_SIZE
    ensures [b[0], b[1], 0, 0] + b[4..HEADER_SIZE] == b[..HEADER_SIZE] <==> b[2] == 0 && b[3] == 0
  {
    var h := [b[0], b[1], 0, 0] + b[4..HEADER_SIZE];
    assert h[2] == 0 && h[3] == 0 && b[..HEADER_SIZE][2] == b[2] && b[..HEADER_SIZE][3] == b[3];
  }

  lemma FrameParts(b: seq<byte>, h: seq<byte>)
    requires |b| == PACKET_SIZE && |h| == HEADER_SIZE
    ensures var payload := b[HEADER_SIZE..HEADER_SIZE + DATA_SIZE];
      h + payload == b[..HEADER_SIZE + DATA_SIZE] <==> h == b[..HEADER_SIZE]
    ensures b == b[..HEADER_SIZE + DATA_SIZE] + b[HEADER_SIZE + DATA_SIZE..]
  {
    var payload := b[HEADER_SIZE..HEADER_SIZE + DATA_SIZE];
    assert b[..HEADER_SIZE] + payload == b[..HEADER_SIZE + DATA_SIZE];
    assert (h + payload)[..HEADER_SIZE] == h;
    assert b[..HEADER_SIZE + DATA_SIZE][..HEADER_SIZE] == b[..HEADER_SIZE];
  }

  /** An accepted frame is reproduced exactly when its reserved bytes are zero. */
  lemma FrameRoundTrip(digest: Digest, b: seq<byte>)
    requires Parse(digest, b).Some?
    ensures Frame(digest, Parse(digest, b).value) == b <==> b[2] == 0 && b[3] == 0
  {
    var h := Header(Fields(b));
    HeaderOfFields(b);
    HeaderSame(b);
    FrameParts(b, h);
    var head := h + b[HEADER_SIZE..HEADER_SIZE + DATA_SIZE];
    hide Header, ToLE, FromLE;
    assert (head + digest(head))[..HEADER_SIZE + DATA_SIZE] == head;
  }

  // ---- The frame, byte by byte ----

  /** Where the fields of a packet are in a frame. */
  ghost predicate LaidOut(digest: Digest, b: seq<byte>, p: Packet) {
    && |b| == 1056
    && b[0] == p.version && b[1] == p.kind
    && Spells(b[4..8], p.psn) && Spells(b[8..16], p.csn) && Spells(b[16..24], p.addr)
    && b[24..1048] == p.payload && b[1048..] == digest(b[..1048])
  }

  /** The reserved bytes apart, a frame is laid out so, ... */
  lemma FrameLaidOut(digest: Digest, p: Packet)
    ensures LaidOut(digest, Frame(digest, p), p)
    ensures Frame(digest, p)[2] == 0 && Frame(digest, p)[3] == 0
  {
    var (b, h) := (Frame(digest, p), Header(p));
    HeaderSlices(p);
    PowValues();
    SpellsExact(h[4..8], p.psn);
    SpellsExact(h[8..16], p.csn);
    SpellsExact(h[16..24], p.addr);
    hide Header, ToLE, Spells;
    assert b[..24] == h && b[..1048] == h + p.payload;
    assert b[4..8] == h[4..8] && b[8..16] == h[8..16] && b[16..24] == h[16..24];
    assert b[0] == h[0] && b[1] == h[1] && b[2] == h[2] && b[3] == h[3];
  }

  /** ... and is accepted as a packet exactly when it is laid out as that packet. */
  lemma FrameExact(digest: Digest, b: seq<byte>, p: Packet)
    ensures Parse(digest, b) == Some(p) <==> LaidOut(digest, b, p)
  {
    if |b| == 1056 {
      PowValues();
      SpellsExact(b[4..8], p.psn);
      SpellsExact(b[8..16], p.csn);
      SpellsExact(b[16..24], p.addr);
      hide Spells, FromLE, ToLE;
    }
  }

  /** What a packet carries of a block: its bytes, zeros, and no more than 1024 of either. */
  lemma FirstPayloadAt(data: seq<byte>, i: nat)
    requires i < 1024
    ensures FirstPayload(data)[i] == if i < |data| then data[i] else 0
  {
  }

  class PacketV2 {
    var version: byte
    var kind: byte
    var psn: uint32
    var csn: uint64
    var addr: uint64
    var data: array<byte>
    var hash: Hash8

    constructor ()
      ensures fresh(data)
    {
      version, kind, psn, csn, addr := 0, 0, 0, 0, 0;
      data := new byte[0];
      hash := [0, 0, 0, 0, 0, 0, 0, 0];
    }

    ghost predicate Valid()
      reads this
    {
      data.Length == DATA_SIZE
    }

    ghost function Value(): Packet
      reads this, data
      requires Valid()
    {
      Packet(version, kind, psn, csn, addr, data[..])
    }

    /** A packet holding the first 1024 bytes of data, zero padded, and what did not fit. */
    static method NewPacketV2(kind: byte, csn: uint64, psn: uint32, addr: uint64, data: seq<byte>)
      returns (packet: PacketV2, rem: Option<seq<byte>>)
      ensures fresh(packet) && fresh(packet.data) && packet.Valid()
      ensures rem == if |data| <= DATA_SIZE then None else Some(data[DATA_SIZE..])
      ensures packet.Value() == Packet(2, kind, psn, csn, addr, FirstPayload(data))
    {
      packet := new PacketV2();
      packet.version, packet.kind, packet.psn, packet.csn, packet.addr := 2, kind, psn, csn, addr;
      packet.data := new byte[DATA_SIZE](_ => 0);
      var copied := CopyInto(packet.data, 0, data);
      assert packet.data[..] == FirstPayload(data);
      if |data[copied..]| == 0 {
        rem := None;
      } else {
        rem := Some(data[copied..]);
      }
    }

    method Marshal(digest: Digest) returns (b: array<byte>)
      requires Valid()
      ensures fresh(b) && b[..] == Frame(digest, Value())
    {
      b := new byte[PACKET_SIZE](_ => 0);
      b[0] := version;
      b[1] := kind;
      ghost var s0 := [version, kind, 0, 0];
      assert b[..4] == s0;
      PutLE(b, 4, 4, psn);
      ghost var s1 := s0 + ToLE(psn, 4);
      assert b[..8] == s1;
      PutLE(b, 8, 8, csn);
      ghost var s2 := s1 + ToLE(csn, 8);
      assert b[..16] == s2;
      PutLE(b, 16, 8, addr);
      ghost var s3 := s2 + ToLE(addr, 8);
      assert b[..24] == s3 == Header(Value());
      var n := CopyInto(b, HEADER_SIZE, data[..]);
      ghost var s4 := s3 + data[..];
      assert b[..HEADER_SIZE + DATA_SIZE] == s4;
      var h := digest(b[..HEADER_SIZE + DATA_SIZE]);
      n := CopyInto(b, HEADER_SIZE + DATA_SIZE, h);
      assert b[..] == s4 + h;
    }

    /** True exactly when the frame parses; the receiver then is the parsed packet. */
    method Unmarshal(digest: Digest, b: array<byte>) returns (ok: bool)
      modifies this
      ensures ok <==> Parse(digest, b[..]).Some?
      ensures ok ==> Valid() && fresh(data) && Parse(digest, b[..]) == Some(Value())
      ensures b.Length != PACKET_SIZE ==> unchanged(this)
      ensures b.Length == PACKET_SIZE ==>
        Valid() && fresh(data) && Value() == Fields(b[..]) && hash == b[HEADER_SIZE + DATA_SIZE..]
    {
      if b.Length != PACKET_SIZE {
        return false;
      }
      var s := b[..];
      ToFromLE(s[4..8]); ToFromLE(s[8..16]); ToFromLE(s[16..24]); PowValues();
      version := b[0];
      kind := b[1];
      psn := FromLE(s[4..8]);
      csn := FromLE(s[8..16]);
      addr := FromLE(s[16..24]);
      data := new byte[DATA_SIZE](_ => 0);
      var payload := s[HEADER_SIZE..HEADER_SIZE + DATA_SIZE];
      var n := CopyInto(data, 0, payload);
      assert data[..] == data[0..n] == payload[..n] == payload;
      hash := s[HEADER_SIZE + DATA_SIZE..];
      ok := hash == digest(s[..HEADER_SIZE + DATA_SIZE]);
    }
  }
}
