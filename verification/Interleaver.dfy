/** The packet interleaver, Encoder.dispatch (src/codec/encoder.go:98-129): a batch of chunks is
    written chunk by chunk and sent packet number by packet number. */
module Interleaver {
  import opened Lists
  import opened Packets
  import opened Arith

  /** The slot of the k-th packet of a batch, as the source computes it. */
  function SlotOf(chunks: nat, total: nat, k: nat): nat
    requires chunks >= 1 && total >= 1
  {
    MulMono(1, chunks, total);
    (chunks * k + k / total) % (chunks * total)
  }

  /** Which packet of the batch a slot holds. */
  function Origin(chunks: nat, total: nat, i: nat): nat
    requires chunks >= 1
  {
    i % chunks * total + i / chunks
  }

  lemma SlotProduct(chunks: int, total: int, q: int, r: int)
    ensures chunks * (q * total + r) == q * (chunks * total) + chunks * r
  {
    MulAssoc(chunks, q, total);
    MulAssoc(q, chunks, total);
    assert chunks * q == q * chunks;
  }

  /** Packet r of chunk q goes to place q of row r: the batch is transposed. */
  lemma Transposition(chunks: nat, total: nat, q: nat, r: nat)
    requires q < chunks && r < total
    ensures 0 <= q * total + r < chunks * total && 0 <= chunks * r + q < chunks * total
    ensures SlotOf(chunks, total, q * total + r) == chunks * r + q
    ensures Origin(chunks, total, chunks * r + q) == q * total + r
  {
    hide SlotOf, Origin;
    Inside(chunks, total, q, r);
    SlotIs(chunks, total, q, r);
    OriginIs(chunks, total, q, r);
  }

  lemma Inside(chunks: nat, total: nat, q: nat, r: nat)
    requires q < chunks && r < total
    ensures 0 <= q * total + r < chunks * total && 0 <= chunks * r + q < chunks * total
  {
    RowsApart(total, q, chunks);
    RowsApart(chunks, r, total);
    assert r * chunks == chunks * r && total * chunks == chunks * total;
  }

  lemma SlotIs(chunks: nat, total: nat, q: nat, r: nat)
    requires q < chunks && r < total
    ensures 0 <= q * total + r && SlotOf(chunks, total, q * total + r) == chunks * r + q
  {
    Inside(chunks, total, q, r);
    var (k, size, at) := (q * total + r, chunks * total, chunks * r + q);
    ModUnique(k, total, q, r);
    SlotProduct(chunks, total, q, r);
    assert chunks * k + q == q * size + at;
    ModUnique(chunks * k + q, size, q, at);
  }

  lemma OriginIs(chunks: nat, total: nat, q: nat, r: nat)
    requires q < chunks && r < total
    ensures 0 <= chunks * r + q && Origin(chunks, total, chunks * r + q) == q * total + r
  {
    Inside(chunks, total, q, r);
    assert chunks * r == r * chunks;
    ModUnique(chunks * r + q, chunks, r, q);
  }

  /** Filling is a bijection: every packet of a batch has its own slot, ... */
  lemma SlotsDistinct(chunks: nat, total: nat, k: nat)
    requires chunks >= 1 && total >= 1 && k < chunks * total
    ensures SlotOf(chunks, total, k) < chunks * total
    ensures Origin(chunks, total, SlotOf(chunks, total, k)) == k
  {
    hide SlotOf, Origin;
    Quotient(k, total, chunks);
    Transposition(chunks, total, k / total, k % total);
    assert k == k / total * total + k % total;
  }

  /** ... and no slot is left over. */
  lemma SlotsCovered(chunks: nat, total: nat, i: nat)
    requires chunks >= 1 && total >= 1 && i < chunks * total
    ensures 0 <= Origin(chunks, total, i) < chunks * total
    ensures SlotOf(chunks, total, Origin(chunks, total, i)) == i
  {
    hide SlotOf, Origin;
    var (r, q) := (i / chunks, i % chunks);
    assert i == r * chunks + q && r * chunks == chunks * r;
    assert chunks * total == total * chunks;
    Quotient(i, chunks, total);
    Transposition(chunks, total, q, r);
    assert i == chunks * r + q;
  }

  /** Packets of one chunk are sent in the order of their numbers. */
  lemma OrderKept(chunks: nat, total: nat, q: nat, r: nat, s: nat)
    requires q < chunks && r < s < total
    ensures 0 <= q * total + r < q * total + s < chunks * total
    ensures SlotOf(chunks, total, q * total + r) < SlotOf(chunks, total, q * total + s)
  {
    hide SlotOf, Origin;
    Transposition(chunks, total, q, r);
    Transposition(chunks, total, q, s);
    RowsApart(chunks, r, s);
    assert chunks * r == r * chunks && chunks * s == s * chunks;
  }

  lemma Quotient(k: nat, m: nat, n: nat)
    requires m >= 1 && k < n * m
    ensures k / m < n
  {
    var q := k / m;
    assert k == q * m + k % m;
    if q >= n { MulMono(n, q, m); }
  }

  // ---- Batches ----

  function Transposed(chunks: nat, total: nat, batch: seq<Packet>): (s: seq<Packet>)
    requires chunks >= 1 && total >= 1 && |batch| == chunks * total
    ensures |s| == |batch|
  {
    seq(|batch|, i requires 0 <= i < |batch| =>
      SlotsCovered(chunks, total, i);
      batch[Origin(chunks, total, i)])
  }

  /** One packet: the batch it joins, or the batch it completes, transposed. */
  function Step(chunks: nat, total: nat, batch: seq<Packet>, p: Packet): (r: (seq<Packet>, seq<Packet>))
    requires chunks >= 1 && total >= 1 && |batch| < chunks * total
    ensures |r.0| < chunks * total
  {
    if |batch| + 1 == chunks * total then
      MulMono(1, chunks, total);
      ([], Transposed(chunks, total, batch + [p]))
    else (batch + [p], [])
  }

  function Run(chunks: nat, total: nat, h: seq<Packet>): (r: (seq<Packet>, seq<Packet>))
    requires chunks >= 1 && total >= 1
    ensures |r.0| < chunks * total
  {
    if h == [] then
      MulMono(1, chunks, total);
      ([], [])
    else
      var (batch, out) := Run(chunks, total, Front(h));
      var (batch', more) := Step(chunks, total, batch, Last(h));
      (batch', out + more)
  }

  /** Place i of batch b of the output is the packet of batch b that slot i holds. */
  ghost predicate InBatch(chunks: nat, total: nat, h: seq<Packet>, out: seq<Packet>, b: nat, i: nat)
    requires chunks >= 1 && total >= 1
  {
    var base := b * (chunks * total);
    var o := Origin(chunks, total, i);
    0 <= base + i < |out| && 0 <= base + o < |h| && out[base + i] == h[base + o]
  }

  ghost predicate Batches(chunks: nat, total: nat, h: seq<Packet>, out: seq<Packet>, n: nat)
    requires chunks >= 1 && total >= 1
  {
    && |out| == n * (chunks * total) <= |h|
    && forall b: nat, i: nat :: b < n && i < chunks * total ==> InBatch(chunks, total, h, out, b, i)
  }

  lemma BatchWaits(chunks: nat, total: nat, g: seq<Packet>, p: Packet, out: seq<Packet>, n: nat)
    requires chunks >= 1 && total >= 1 && Batches(chunks, total, g, out, n)
    ensures Batches(chunks, total, g + [p], out, n)
  {
    forall b: nat, i: nat | b < n && i < chunks * total ensures InBatch(chunks, total, g + [p], out, b, i) {
      assert InBatch(chunks, total, g, out, b, i);
    }
  }

  lemma BatchGrows(chunks: nat, total: nat, h: seq<Packet>, g: seq<Packet>, out: seq<Packet>, n: nat)
    requires chunks >= 1 && total >= 1 && Batches(chunks, total, g, out, n) && g <= h
    requires |h| == |out| + chunks * total
    ensures Batches(chunks, total, h, out + Transposed(chunks, total, h[|out|..]), n + 1)
  {
    hide Origin, SlotOf;
    var size := chunks * total;
    var batch := h[|out|..];
    var more := Transposed(chunks, total, batch);
    MulSucc(n, size);
    forall b: nat, i: nat | b < n + 1 && i < size ensures InBatch(chunks, total, h, out + more, b, i) {
      if b < n {
        assert InBatch(chunks, total, g, out, b, i);
      } else {
        SlotsCovered(chunks, total, i);
        assert more[i] == batch[Origin(chunks, total, i)];
      }
    }
  }

  /** The output so far is the complete batches of the input, each transposed; the rest waits. */
  lemma {:induction false} RunBatches(chunks: nat, total: nat, h: seq<Packet>) returns (n: nat)
    requires chunks >= 1 && total >= 1
    ensures var (batch, out) := Run(chunks, total, h);
      Batches(chunks, total, h, out, n) && batch == h[|out|..]
  {
    hide Transposed, InBatch;
    if h == [] {
      n := 0;
    } else {
      var (g, p) := (Front(h), Last(h));
      n := RunBatches(chunks, total, g);
      var (batch, out) := Run(chunks, total, g);
      assert |out| <= |g|;
      hide Batches;
      assert h == g + [p] && batch + [p] == h[|out|..];
      if |batch| + 1 == chunks * total {
        BatchGrows(chunks, total, h, g, out, n);
        n := n + 1;
        assert h[|out| + chunks * total..] == [];
      } else {
        BatchWaits(chunks, total, g, p, out, n);
        assert out + [] == out;
      }
    }
  }

  // ---- The order of the output stream ----

  /** A place in the output: batch, packet number, chunk within the batch. */
  datatype Pos = Pos(b: nat, r: nat, q: nat)

  function Next(chunks: nat, total: nat, p: Pos): Pos
  {
    if p.q + 1 < chunks then Pos(p.b, p.r, p.q + 1)
    else if p.r + 1 < total then Pos(p.b, p.r + 1, 0)
    else Pos(p.b + 1, 0, 0)
  }

  function At(chunks: nat, total: nat, j: nat): (p: Pos)
    requires chunks >= 1 && total >= 1
    ensures p.q < chunks && p.r < total
  {
    if j == 0 then Pos(0, 0, 0) else Next(chunks, total, At(chunks, total, j - 1))
  }

  function IndexOf(chunks: nat, total: nat, p: Pos): int
  {
    p.b * (chunks * total) + chunks * p.r + p.q
  }

  lemma {:induction false} AtIndex(chunks: nat, total: nat, j: nat)
    requires chunks >= 1 && total >= 1
    ensures IndexOf(chunks, total, At(chunks, total, j)) == j
  {
    if j > 0 {
      var p := At(chunks, total, j - 1);
      AtIndex(chunks, total, j - 1);
      MulSucc(p.b, chunks * total);
      MulSucc(p.r, chunks);
      assert (p.r + 1) * chunks == chunks * (p.r + 1) && p.r * chunks == chunks * p.r;
      if p.q + 1 == chunks && p.r + 1 == total {
        assert chunks * (p.r + 1) == chunks * total;
      }
    }
  }

  /** The number of chunk q of batch b. */
  function CsnAt(chunks: nat, p: Pos): nat { p.b * chunks + p.q + 1 }

  /** The packets come row by row. */
  ghost predicate RowByRow(chunks: nat, total: nat, out: seq<Packet>)
    requires chunks >= 1 && total >= 1
  {
    forall j :: 0 <= j < |out| ==>
      out[j].csn == CsnAt(chunks, At(chunks, total, j)) && out[j].psn == At(chunks, total, j).r
  }

  /** Packet r of chunk i + 1 is where the encoder puts it. */
  ghost predicate EncodedAt(total: nat, h: seq<Packet>, i: nat, r: nat) {
    0 <= i * total + r < |h| ==> h[i * total + r].csn == i + 1 && h[i * total + r].psn == r
  }

  /** The input of the interleaver: chunk after chunk, each with all its packets. */
  ghost predicate ChunkByChunk(total: nat, h: seq<Packet>) {
    forall i: nat, r: nat :: r < total ==> EncodedAt(total, h, i, r)
  }

  lemma PlaceInInput(chunks: nat, total: nat, p: Pos)
    requires chunks >= 1 && total >= 1
    ensures (p.b * chunks + p.q) * total + p.r == p.b * (chunks * total) + (p.q * total + p.r)
  {
    MulAssoc(p.b, chunks, total);
  }

  /** The output for place p is the packet the encoder made for it. */
  lemma OutAt(chunks: nat, total: nat, h: seq<Packet>, j: nat)
    requires chunks >= 1 && total >= 1 && j < |Run(chunks, total, h).1|
    ensures var p := At(chunks, total, j);
      var k := (p.b * chunks + p.q) * total + p.r;
      0 <= k < |h| && Run(chunks, total, h).1[j] == h[k]
  {
    hide Origin, SlotOf, Run;
    var n := RunBatches(chunks, total, h);
    var size := chunks * total;
    var p := At(chunks, total, j);
    var out := Run(chunks, total, h).1;
    AtIndex(chunks, total, j);
    Transposition(chunks, total, p.q, p.r);
    PlaceInInput(chunks, total, p);
    var i := chunks * p.r + p.q;
    if p.b >= n { MulMono(n, p.b, size); }
    InBatchAt(chunks, total, h, out, n, p.b, i);
  }

  lemma InBatchAt(chunks: nat, total: nat, h: seq<Packet>, out: seq<Packet>, n: nat, b: nat, i: nat)
    requires chunks >= 1 && total >= 1 && Batches(chunks, total, h, out, n) && b < n && i < chunks * total
    ensures var base := b * (chunks * total);
      var o := Origin(chunks, total, i);
      0 <= base + i < |out| && 0 <= base + o < |h| && out[base + i] == h[base + o]
  {
    hide Origin;
    assert InBatch(chunks, total, h, out, b, i);
  }

  lemma OutRowByRow(chunks: nat, total: nat, h: seq<Packet>)
    requires chunks >= 1 && total >= 1 && ChunkByChunk(total, h)
    ensures RowByRow(chunks, total, Run(chunks, total, h).1)
  {
    hide Run, At;
    var out := Run(chunks, total, h).1;
    forall j | 0 <= j < |out|
      ensures out[j].csn == CsnAt(chunks, At(chunks, total, j)) && out[j].psn == At(chunks, total, j).r
    {
      var p := At(chunks, total, j);
      OutAt(chunks, total, h, j);
      assert EncodedAt(total, h, p.b * chunks + p.q, p.r);
    }
  }
}
