/** The chunk of src/codec/chunk.go: a block of user bytes spread over 1024-byte shards. */
module Chunks {
  import opened Lists
  import opened Bytes

  const CHUNK_HEADER: nat := 22

  /** The value of a chunk; its size field is |data|. */
  datatype ChunkV = ChunkV(parts: nat, version: byte, kind: byte, csn: uint64, data: seq<byte>)

  function ChunkHeader(c: ChunkV): (b: seq<byte>)
    ensures |b| == CHUNK_HEADER
  {
    [c.version, c.kind, 0, 0, 0, 0] + ToLE(c.csn, 8) + ToLE(|c.data|, 8)
  }

  ghost predicate Fits(c: ChunkV, n: nat) { CHUNK_HEADER + |c.data| <= DATA_SIZE * n }

  /** n bytes of b from a place on, followed by zeros where b ends. */
  function Piece(b: seq<byte>, from: nat, n: nat): (p: seq<byte>)
    ensures |p| == n
  {
    seq(n, i requires 0 <= i < n => if from + i < |b| then b[from + i] else 0)
  }

  /** Shard i of a chunk: its bytes of header, data and then zeros. */
  function ShardAt(c: ChunkV, i: nat): Shard
  {
    Piece(ChunkHeader(c) + c.data, DATA_SIZE * i, DATA_SIZE)
  }

  function FirstShards(c: ChunkV, n: nat): (s: seq<Shard>)
    ensures |s| == n && forall i :: 0 <= i < n ==> s[i] == ShardAt(c, i)
  {
    seq(n, i requires 0 <= i < n => ShardAt(c, i))
  }

  /** The shards Marshal fills, for a given allocation total. */
  function Shards(c: ChunkV, total: nat): (s: seq<Shard>)
    ensures |s| == Max(total, c.parts) && forall i :: 0 <= i < |s| ==> s[i] == ShardAt(c, i)
  {
    FirstShards(c, Max(total, c.parts))
  }

  /** The size a first shard announces. */
  function SizeField(head: seq<byte>): (n: uint64)
    requires |head| >= CHUNK_HEADER
  {
    ToFromLE(head[14..CHUNK_HEADER]); PowValues();
    FromLE(head[14..CHUNK_HEADER])
  }

  function CsnField(head: seq<byte>): (n: uint64)
    requires |head| >= CHUNK_HEADER
  {
    ToFromLE(head[6..14]); PowValues();
    FromLE(head[6..14])
  }

  /** The chunk a list of shards of any lengths holds, if the size it announces fits in them. */
  function ParseChunk(s: seq<seq<byte>>): Option<ChunkV>
    requires s != [] ==> |s[0]| >= CHUNK_HEADER
  {
    if s == [] || CHUNK_HEADER + SizeField(s[0]) > |Flatten(s)| then None
    else
      var (head, all) := (s[0], Flatten(s));
      Some(ChunkV(|s|, head[0], head[1], CsnField(head), all[CHUNK_HEADER..CHUNK_HEADER + SizeField(head)]))
  }

  lemma ParseIs(s: seq<seq<byte>>, size: uint64, data: seq<byte>)
    requires s != [] && |s[0]| >= CHUNK_HEADER && size == SizeField(s[0])
    ensures ParseChunk(s).Some? <==> CHUNK_HEADER + size <= |Flatten(s)|
    ensures CHUNK_HEADER + size <= |Flatten(s)| && data == Flatten(s)[CHUNK_HEADER..CHUNK_HEADER + size] ==>
      ParseChunk(s) == Some(ChunkV(|s|, s[0][0], s[0][1], CsnField(s[0]), data))
  {
    hide SizeField, CsnField, Flatten;
  }

  // ---- Splitting and joining ----

  lemma {:induction false} FlattenShards(c: ChunkV, n: nat)
    ensures Flatten(FirstShards(c, n)) == Piece(ChunkHeader(c) + c.data, 0, DATA_SIZE * n)
  {
    var b := ChunkHeader(c) + c.data;
    if n == 0 {
      assert Piece(b, 0, 0) == [];
    } else {
      FlattenShards(c, n - 1);
      assert Front(FirstShards(c, n)) == FirstShards(c, n - 1);
      PieceAppend(b, DATA_SIZE * (n - 1), DATA_SIZE);
    }
  }

  lemma PieceAppend(b: seq<byte>, m: nat, n: nat)
    ensures Piece(b, 0, m + n) == Piece(b, 0, m) + Piece(b, m, n)
  {
  }

  /** Where the header and the data are among the bytes of the shards. */
  lemma PieceParts(h: seq<byte>, d: seq<byte>, n: nat)
    ensures |h| <= n ==> Piece(h + d, 0, n)[..|h|] == h
    ensures |h| + |d| <= n ==> Piece(h + d, 0, n)[|h|..|h| + |d|] == d
  {
  }

  lemma HeadFields(c: ChunkV, head: seq<byte>)
    requires |c.data| < TWO64 && |head| >= CHUNK_HEADER && head[..CHUNK_HEADER] == ChunkHeader(c)
    ensures head[0] == c.version && head[1] == c.kind
    ensures CsnField(head) == c.csn && SizeField(head) == |c.data|
  {
    var h := ChunkHeader(c);
    assert head[6..14] == h[6..14] == ToLE(c.csn, 8);
    assert head[14..CHUNK_HEADER] == h[14..CHUNK_HEADER] == ToLE(|c.data|, 8);
    assert head[0] == h[0] && head[1] == h[1];
    PowValues();
    FromToLE(c.csn, 8); FromToLE(|c.data|, 8);
  }

  /** A chunk is read back from its own parts exactly when it fits in them: NewChunk admits
      blocks up to 22 bytes longer, and those do not come back. The shards past its parts are zero. */
  lemma ChunkRoundTrip(c: ChunkV, total: nat)
    requires c.parts >= 1 && |c.data| < TWO64
    ensures ParseChunk(Shards(c, total)[..c.parts]) == Some(c) <==> Fits(c, c.parts)
    ensures ParseChunk(Shards(c, total)[..c.parts]).Some? <==> Fits(c, c.parts)
    ensures Fits(c, c.parts) ==>
      forall i :: c.parts <= i < total ==> Shards(c, total)[i] == ZeroBytes(DATA_SIZE)
  {
    var h := ChunkHeader(c);
    var s := FirstShards(c, c.parts);
    hide ChunkHeader, CsnField, SizeField, Flatten;
    assert Shards(c, total)[..c.parts] == s;
    FlattenShards(c, c.parts);
    PieceParts(h, c.data, DATA_SIZE * c.parts);
    PieceParts(h, c.data, DATA_SIZE);
    HeadFields(c, s[0]);
    forall i | c.parts <= i < total && Fits(c, c.parts) ensures Shards(c, total)[i] == ZeroBytes(DATA_SIZE) {
      SpareShard(c, i);
    }
  }

  lemma SpareShard(c: ChunkV, i: nat)
    requires Fits(c, i)
    ensures ShardAt(c, i) == ZeroBytes(DATA_SIZE)
  {
  }

  // ---- The chunk, byte by byte ----

  /** Where the fields and the data of a chunk are among the bytes of its shards. */
  ghost predicate Holds(b: seq<byte>, c: ChunkV) {
    && 22 + |c.data| <= |b|
    && b[0] == c.version && b[1] == c.kind
    && Spells(b[6..14], c.csn) && Spells(b[14..22], |c.data|)
    && b[22..22 + |c.data|] == c.data
  }

  lemma HeaderSpells(c: ChunkV)
    requires |c.data| < TWO64
    ensures var h := ChunkHeader(c);
      && h[0] == c.version && h[1] == c.kind && (forall i :: 2 <= i < 6 ==> h[i] == 0)
      && Spells(h[6..14], c.csn) && Spells(h[14..22], |c.data|)
  {
    var h := ChunkHeader(c);
    PowValues();
    assert h[6..14] == ToLE(c.csn, 8) && h[14..22] == ToLE(|c.data|, 8);
    SpellsExact(h[6..14], c.csn);
    SpellsExact(h[14..22], |c.data|);
  }

  /** The shards of a chunk that fits hold it, and are zero in the reserved bytes and after the data. */
  lemma ShardsHold(c: ChunkV, n: nat)
    requires |c.data| < TWO64 && Fits(c, n)
    ensures var b := Flatten(FirstShards(c, n));
      && Holds(b, c) && |b| == 1024 * n
      && forall i :: 2 <= i < 6 || 22 + |c.data| <= i < |b| ==> b[i] == 0
  {
    var (h, b) := (ChunkHeader(c), Flatten(FirstShards(c, n)));
    HeaderSpells(c);
    FlattenShards(c, n);
    PieceParts(h, c.data, 1024 * n);
    hide ChunkHeader, Flatten, Spells;
    assert b[..22] == h;
    assert b[6..14] == h[6..14] && b[14..22] == h[14..22] && b[0] == h[0] && b[1] == h[1];
    forall i | 2 <= i < 6 ensures b[i] == 0 { assert b[i] == h[i]; }
  }

  lemma FieldsSpell(head: seq<byte>, csn: uint64, size: uint64)
    requires |head| >= 22
    ensures CsnField(head) == csn <==> Spells(head[6..14], csn)
    ensures SizeField(head) == size <==> Spells(head[14..22], size)
  {
    PowValues();
    SpellsExact(head[6..14], csn);
    SpellsExact(head[14..22], size);
  }

  /** A list of shards is read as a chunk exactly when it holds that chunk. */
  lemma ChunkExact(s: seq<seq<byte>>, c: ChunkV)
    requires s != [] ==> |s[0]| >= 22
    ensures ParseChunk(s) == Some(c) <==>
      s != [] && c.parts == |s| && |c.data| < TWO64 && Holds(Flatten(s), c)
  {
    hide CsnField, SizeField, Spells, Flatten;
    if s != [] && |c.data| < TWO64 {
      FlattenOne(s);
      FieldsSpell(s[0], c.csn, |c.data|);
      SameHead(s[0], Flatten(s));
    }
  }

  lemma SameHead(head: seq<byte>, b: seq<byte>)
    requires |head| >= 22 && head <= b
    ensures b[0] == head[0] && b[1] == head[1] && b[6..14] == head[6..14] && b[14..22] == head[14..22]
  {
  }

  // ---- What the copying loops do ----

  /** The bytes of the first i shards behind the header. */
  function Behind(i: nat): nat
    requires i >= 1
  {
    DATA_SIZE * i - CHUNK_HEADER
  }

  /** The first shard: the header and as much data as there is room for. */
  lemma FirstShard(c: ChunkV, head: seq<byte>, n: nat)
    requires n == Min(Behind(1), |c.data|)
    requires head == ChunkHeader(c) + c.data[..n] + ZeroBytes(Behind(1))[n..]
    ensures head == ShardAt(c, 0)
  {
    hide ChunkHeader;
    assert |head| == DATA_SIZE;
  }

  /** One turn of Marshal's loop. */
  lemma NextShard(c: ChunkV, shard: seq<byte>, i: nat, n: nat)
    requires i >= 1 && Behind(i) <= |c.data| && n == Min(DATA_SIZE, |c.data| - Behind(i))
    requires shard == [] + c.data[Behind(i)..][..n] + ZeroBytes(DATA_SIZE)[n..]
    ensures shard == ShardAt(c, i)
  {
    hide ChunkHeader;
    var d := c.data[Behind(i)..];
    assert |shard| == DATA_SIZE;
    forall j | 0 <= j < DATA_SIZE ensures shard[j] == ShardAt(c, i)[j] {
      if j < n { assert shard[j] == d[j]; }
    }
  }

  /** What the first i shards hold, and the next. */
  lemma FlattenTake(s: seq<seq<byte>>, i: nat)
    requires i < |s|
    ensures Flatten(s[..i + 1]) == Flatten(s[..i]) + s[i]
    ensures Flatten(s[..i + 1]) <= Flatten(s)
  {
    assert Front(s[..i + 1]) == s[..i];
    FlattenPrefix(s, i + 1);
  }

  /** The data copied when the first i shards have been read. */
  ghost predicate Copied(s: seq<seq<byte>>, i: nat, size: nat, data: seq<byte>, copied: nat)
  {
    && 1 <= i <= |s| && |data| == size
    && CHUNK_HEADER <= |Flatten(s[..i])| <= |Flatten(s)|
    && copied == Min(size, |Flatten(s[..i])| - CHUNK_HEADER)
    && data[..copied] == Flatten(s)[CHUNK_HEADER..CHUNK_HEADER + copied]
  }

  /** One turn of Unmarshal's loop. */
  lemma GatherNext(s: seq<seq<byte>>, i: nat, size: nat, before: seq<byte>, copied: nat, after: seq<byte>, n: nat)
    requires Copied(s, i, size, before, copied) && i < |s| && copied < size
    requires n == Min(size - copied, |s[i]|)
    requires after == before[..copied] + s[i][..n] + before[copied + n..]
    ensures Copied(s, i + 1, size, after, copied + n)
  {
    var (pre, all) := (Flatten(s[..i]), Flatten(s));
    FlattenTake(s, i);
    assert |pre| == CHUNK_HEADER + copied;
    hide Flatten;
    assert (pre + s[i])[..|pre|] == all[..|pre|];
    GatherBytes(before, after, s[i], all, copied, n);
  }

  lemma GatherBytes(before: seq<byte>, after: seq<byte>, src: seq<byte>, all: seq<byte>, copied: nat, n: nat)
    requires copied + n <= |before| && n <= |src|
    requires CHUNK_HEADER + copied + |src| <= |all|
    requires after == before[..copied] + src[..n] + before[copied + n..]
    requires before[..copied] == all[CHUNK_HEADER..CHUNK_HEADER + copied]
    requires src == all[CHUNK_HEADER + copied..CHUNK_HEADER + copied + |src|]
    ensures |after| == |before| && after[..copied + n] == all[CHUNK_HEADER..CHUNK_HEADER + copied + n]
  {
    assert after[..copied + n] == before[..copied] + src[..n];
    assert src[..n] == all[CHUNK_HEADER + copied..CHUNK_HEADER + copied + n];
  }

  lemma FlattenOne(s: seq<seq<byte>>)
    requires s != []
    ensures Flatten(s[..1]) == s[0] <= Flatten(s)
  {
    FlattenTake(s, 0);
    assert s[..0] == [] && Flatten(s[..0]) == [];
    assert [] + s[0] == s[0];
  }

  lemma GatherFirst(s: seq<seq<byte>>, size: nat, before: seq<byte>, after: seq<byte>, n: nat)
    requires s != [] && |s[0]| >= CHUNK_HEADER && |before| == size && n == Min(size, |s[0]| - CHUNK_HEADER)
    requires after == before[..0] + s[0][CHUNK_HEADER..][..n] + before[n..]
    ensures Copied(s, 1, size, after, n)
  {
    hide Flatten;
    FlattenOne(s);
    var (head, all) := (s[0], Flatten(s));
    assert after[..n] == head[CHUNK_HEADER..][..n] == head[CHUNK_HEADER..CHUNK_HEADER + n];
    assert head == all[..|head|];
    assert head[CHUNK_HEADER..CHUNK_HEADER + n] == all[CHUNK_HEADER..CHUNK_HEADER + n];
  }

  // ---- Buffers ----

  ghost predicate AllShards(bufs: seq<array<byte>>) {
    forall i :: 0 <= i < |bufs| ==> bufs[i].Length == DATA_SIZE
  }

  function Contents(bufs: seq<array<byte>>): (s: seq<seq<byte>>)
    reads bufs
    ensures |s| == |bufs| && forall i :: 0 <= i < |s| ==> s[i] == bufs[i][..]
  {
    if bufs == [] then [] else Contents(Front(bufs)) + [Last(bufs)[..]]
  }

  /** reedsolomon.AllocAligned: n distinct zeroed shards. */
  method AllocShards(n: nat) returns (bufs: seq<array<byte>>)
    ensures |bufs| == n && AllShards(bufs) && fresh(bufs)
    ensures forall i, j :: 0 <= i < j < n ==> bufs[i] != bufs[j]
    ensures forall i :: 0 <= i < n ==> bufs[i][..] == ZeroBytes(DATA_SIZE)
  {
    bufs := [];
    while |bufs| < n
      invariant |bufs| <= n && AllShards(bufs) && fresh(bufs)
      invariant forall i, j :: 0 <= i < j < |bufs| ==> bufs[i] != bufs[j]
      invariant forall i :: 0 <= i < |bufs| ==> bufs[i][..] == ZeroBytes(DATA_SIZE)
    {
      var b := new byte[DATA_SIZE](_ => 0);
      assert b[..] == ZeroBytes(DATA_SIZE);
      bufs := bufs + [b];
    }
  }

  class Chunk {
    var parts: uint64
    var version: byte
    var kind: byte
    var csn: uint64
    var size: uint64
    var data: array<byte>

    constructor ()
      ensures fresh(data)
    {
      parts, version, kind, csn, size := 0, 0, 0, 0, 0;
      data := new byte[0];
    }

    ghost predicate Valid()
      reads this
    {
      data.Length == size
    }

    ghost function Value(): ChunkV
      reads this, data
    {
      ChunkV(parts, version, kind, csn, data[..])
    }

    /** At most parts full shards of the block, and what was left over; the product wraps at 2^64. */
    static method NewChunk(parts: uint64, csn: uint64, kind: byte, data: array<byte>)
      returns (chunk: Chunk, rem: Option<seq<byte>>)
      requires data.Length < TWO64
      ensures fresh(chunk) && chunk.Valid()
      ensures data.Length <= Wrap64(parts * DATA_SIZE) ==> rem == None && chunk.data == data
      ensures data.Length > Wrap64(parts * DATA_SIZE) ==> rem == Some(data[Wrap64(parts * DATA_SIZE)..])
      ensures chunk.Value() ==
        ChunkV(parts, 1, kind, csn, data[..Min(data.Length, Wrap64(parts * DATA_SIZE))])
    {
      var size := Min(data.Length, Wrap64(parts * DATA_SIZE));
      hide Wrap64;
      chunk := new Chunk();
      chunk.parts, chunk.version, chunk.kind, chunk.csn, chunk.size := parts, 1, kind, csn, size;
      if size == data.Length {
        chunk.data := data;
        assert data[..] == data[..size];
        rem := None;
      } else {
        chunk.data := new byte[size](_ => 0);
        var n := CopyInto(chunk.data, 0, data[..size]);
        rem := Some(data[size..]);
      }
    }

    /** A copy of the data: later writes to either do not show in the other. */
    method Data() returns (d: array<byte>)
      requires Valid()
      ensures fresh(d) && d[..] == Value().data
    {
      d := new byte[size](_ => 0);
      var n := CopyInto(d, 0, data[..]);
    }

    method PutHeader(first: array<byte>)
      requires Valid() && first != data && first[..] == ZeroBytes(DATA_SIZE)
      modifies first
      ensures first[..] == ChunkHeader(Value()) + ZeroBytes(Behind(1))
    {
      first[0] := version;
      first[1] := kind;
      ghost var s0 := [version, kind, 0, 0, 0, 0];
      assert first[..6] == s0;
      PutLE(first, 6, 8, csn);
      ghost var s1 := s0 + ToLE(csn, 8);
      assert first[..14] == s1;
      PutLE(first, 14, 8, data.Length);
      assert first[..CHUNK_HEADER] == ChunkHeader(Value());
      assert first[CHUNK_HEADER..] == ZeroBytes(Behind(1));
    }

    /** Fills fresh shards with header and data. Not ok is where the source runs past the last shard
        and panics: exactly when the chunk does not fit in the allocation. */
    method Marshal(total: uint64) returns (dst: seq<array<byte>>, ok: bool)
      requires Valid()
      ensures ok <==> Fits(Value(), Max(total, parts))
      ensures ok ==> AllShards(dst) && fresh(dst) && Contents(dst) == Shards(Value(), total)
    {
      dst := AllocShards(Max(total, parts));
      if dst == [] {
        return dst, false;
      }
      PutHeader(dst[0]);
      ok := PutData(dst);
      if ok {
        assert Contents(dst) == Shards(Value(), total);
      }
    }

    /** The copying loop of Marshal: data after the header, then shard by shard. */
    method PutData(dst: seq<array<byte>>) returns (ok: bool)
      requires Valid() && AllShards(dst) && data !in dst && |dst| >= 1
      requires forall i, j :: 0 <= i < j < |dst| ==> dst[i] != dst[j]
      requires dst[0][..] == ChunkHeader(Value()) + ZeroBytes(Behind(1))
      requires forall i :: 1 <= i < |dst| ==> dst[i][..] == ZeroBytes(DATA_SIZE)
      modifies dst
      ensures ok <==> Fits(Value(), |dst|)
      ensures ok ==> forall i :: 0 <= i < |dst| ==> dst[i][..] == ShardAt(Value(), i)
    {
      ghost var value := Value();
      hide ChunkHeader, ShardAt;
      var copied := CopyInto(dst[0], CHUNK_HEADER, data[..]);
      FirstShard(value, dst[0][..], copied);
      var i := 1;
      while copied < size
        invariant 1 <= i <= |dst|
        invariant copied == Min(size, Behind(i))
        invariant forall k :: 0 <= k < i ==> dst[k][..] == ShardAt(value, k)
        invariant forall k :: i <= k < |dst| ==> dst[k][..] == ZeroBytes(DATA_SIZE)
        decreases |dst| - i
      {
        if i >= |dst| {
          return false;
        }
        var n := CopyInto(dst[i], 0, data[copied..]);
        NextShard(value, dst[i][..], i, n);
        copied := copied + n;
        i := i + 1;
      }
      forall k | i <= k < |dst| ensures dst[k][..] == ShardAt(value, k) {
        SpareShard(value, k);
      }
      ok := true;
    }

    /** True exactly when the announced size fits in the shards; the receiver then is the parsed
        chunk. The shards may have any lengths, but the first must hold a header. */
    method Unmarshal(bufs: seq<array<byte>>) returns (ok: bool)
      requires |bufs| < TWO64 && (bufs != [] ==> bufs[0].Length >= CHUNK_HEADER)
      modifies this
      ensures ok <==> ParseChunk(Contents(bufs)).Some?
      ensures ok ==> Valid() && fresh(data) && ParseChunk(Contents(bufs)) == Some(Value())
    {
      if |bufs| < 1 {
        return false;
      }
      ghost var s := Contents(bufs);
      hide CsnField, SizeField, Flatten, ParseChunk, Contents;
      parts := |bufs|;
      GetHeader(bufs[0][..]);
      data, ok := GetData(bufs, size, s);
      assert Contents(bufs) == s;
      ParseIs(s, size, data[..]);
    }

    method GetHeader(head: seq<byte>)
      requires |head| >= CHUNK_HEADER
      modifies this`version, this`kind, this`csn, this`size
      ensures version == head[0] && kind == head[1] && csn == CsnField(head) && size == SizeField(head)
    {
      version := head[0];
      kind := head[1];
      csn := CsnField(head);
      size := SizeField(head);
    }

    /** The copying loop of Unmarshal: size bytes after the header, if the shards hold that many. */
    static method GetData(bufs: seq<array<byte>>, size: uint64, ghost s: seq<seq<byte>>)
      returns (data: array<byte>, ok: bool)
      requires 1 <= |bufs| < TWO64 && bufs[0].Length >= CHUNK_HEADER
      requires |s| == |bufs| && forall i :: 0 <= i < |bufs| ==> bufs[i][..] == s[i]
      ensures fresh(data) && data.Length == size
      ensures ok <==> CHUNK_HEADER + size <= |Flatten(s)|
      ensures ok ==> data[..] == Flatten(s)[CHUNK_HEADER..CHUNK_HEADER + size]
    {
      hide Flatten;
      data := new byte[size](_ => 0);
      ghost var before := data[..];
      var copied := CopyInto(data, 0, bufs[0][CHUNK_HEADER..]);
      assert bufs[0][CHUNK_HEADER..] == s[0][CHUNK_HEADER..];
      GatherFirst(s, size, before, data[..], copied);
      var i := 1;
      while copied < size
        invariant 0 <= copied && Copied(s, i, size, data[..], copied)
        decreases |bufs| - i
      {
        if i >= |bufs| {
          assert s[..i] == s;
          return data, false;
        }
        before := data[..];
        var n := CopyInto(data, copied, bufs[i][..]);
        GatherNext(s, i, size, before, copied, data[..], n);
        copied := copied + n;
        i := i + 1;
      }
      assert data[..] == data[..copied];
      ok := size == copied;
    }
  }
}
