/** Loss patterns that are always made good. */
module Losses {
  import opened Lists
  import opened Bytes
  import opened Packets
  import opened ErasureCode
  import opened EncodeStage
  import opened Arith
  import opened Recovery
  import opened EndToEnd
  import opened Interleaver
  import Assembler

  /** Over a lossless in-order link exactly the blocks of the full batches come out. */
  lemma Lossless(code: Code, c: Assembler.Config, size: nat, chunks: nat, blocks: seq<seq<byte>>, n: nat, keeps: Loss)
    requires Usable(code) && Sized(code, blocks) && c == LineConfig(code, c.lines)
    requires size >= 1 && 1 <= chunks <= c.lines && Fills(blocks, chunks, n)
    requires forall csn, psn :: keeps(csn, psn)
    ensures 0 <= n * chunks <= |blocks|
    ensures Recovered(code, c, size, Arrivals(code, chunks, blocks, keeps)) == blocks[..n * chunks]
  {
    UsableTotal(code);
    hide Usable, Recovered, Arrivals, Sized, Fills;
    forall csn: nat, r: nat ensures Arrived(keeps, csn, r) == r { NothingLost(keeps, csn, r); }
    LossesMadeGood(code, c, size, chunks, blocks, n, keeps);
  }

  lemma {:induction false} NothingLost(keeps: Loss, csn: nat, r: nat)
    requires forall psn :: keeps(csn, psn)
    ensures Arrived(keeps, csn, r) == r
  {
    if r > 0 { NothingLost(keeps, csn, r - 1); }
  }

  /** Without interleaving any packets may be lost that leave every chunk those it needs. */
  lemma UpToParityPerChunk(code: Code, c: Assembler.Config, size: nat, blocks: seq<seq<byte>>, keeps: Loss)
    requires Usable(code) && Sized(code, blocks) && c == LineConfig(code, c.lines)
    requires size >= 1 && c.lines >= 1
    requires EnoughArrive(keeps, Needed(code), code.total, |blocks|)
    ensures Recovered(code, c, size, Arrivals(code, 1, blocks, keeps)) == blocks
  {
    hide Usable, Recovered, Arrivals, Sized, EnoughArrive;
    assert Fills(blocks, 1, |blocks|) && |blocks| * 1 == |blocks|;
    assert RowsInOrder(keeps, Needed(code), code.total, 1, |blocks|);
    LossesMadeGood(code, c, size, 1, blocks, |blocks|, keeps);
    assert blocks[..|blocks|] == blocks;
  }

  // ---- Whole rows ----

  /** The link loses whole rows: what happens to a packet depends on its batch and number only. */
  ghost predicate ByRows(keeps: Loss, chunks: nat)
    requires chunks >= 1
  {
    forall e: nat, csn: nat, psn: nat ::
      e >= 1 && csn >= 1 && BatchOf(chunks, e) == BatchOf(chunks, csn) ==> keeps(e, psn) == keeps(csn, psn)
  }

  lemma {:induction false} SameArrivals(keeps: Loss, chunks: nat, e: nat, csn: nat, r: nat)
    requires chunks >= 1 && ByRows(keeps, chunks) && e >= 1 && csn >= 1
    requires BatchOf(chunks, e) == BatchOf(chunks, csn)
    ensures Arrived(keeps, e, r) == Arrived(keeps, csn, r)
  {
    if r > 0 {
      SameArrivals(keeps, chunks, e, csn, r - 1);
      assert keeps(e, r - 1) == keeps(csn, r - 1);
    }
  }

  /** Losing whole rows of each batch that leave its chunks what they need costs nothing. */
  lemma RowLoss(code: Code, c: Assembler.Config, size: nat, chunks: nat, blocks: seq<seq<byte>>, n: nat, keeps: Loss)
    requires Usable(code) && Sized(code, blocks) && c == LineConfig(code, c.lines)
    requires size >= 1 && 1 <= chunks <= c.lines && Fills(blocks, chunks, n)
    requires ByRows(keeps, chunks) && EnoughArrive(keeps, Needed(code), code.total, n * chunks)
    ensures 0 <= n * chunks <= |blocks|
    ensures Recovered(code, c, size, Arrivals(code, chunks, blocks, keeps)) == blocks[..n * chunks]
  {
    UsableTotal(code);
    hide Usable, Recovered, Arrivals, Sized, Fills, ByRows, EnoughArrive;
    forall e: nat, csn: nat, r: nat |
      1 <= e < csn <= n * chunks && BatchOf(chunks, e) == BatchOf(chunks, csn) && r <= code.total
      ensures Arrived(keeps, csn, r) >= Needed(code) ==> Arrived(keeps, e, r) >= Needed(code)
    {
      SameArrivals(keeps, chunks, e, csn, r);
    }
    LossesMadeGood(code, c, size, chunks, blocks, n, keeps);
  }

  // ---- Bursts ----

  /** Where packet psn of a chunk is in the output stream. */
  function Place(chunks: nat, total: nat, csn: nat, psn: nat): int
    requires chunks >= 1
  {
    if csn == 0 then IndexOf(chunks, total, Pos(0, psn, 0))
    else IndexOf(chunks, total, Pos(BatchOf(chunks, csn), psn, (csn - 1) % chunks))
  }

  /** A burst: the packets at places lo up to lo + len are lost. */
  function BurstLoss(chunks: nat, total: nat, lo: nat, len: nat): Loss
    requires chunks >= 1
  {
    (csn: nat, psn: nat) => !(lo <= Place(chunks, total, csn, psn) < lo + len)
  }

  /** A packet's place is where it is in the stream. */
  lemma PlaceIs(chunks: nat, total: nat, out: seq<Packet>)
    requires chunks >= 1 && total >= 1 && RowByRow(chunks, total, out) && out != []
    ensures Place(chunks, total, Last(out).csn, Last(out).psn) == |out| - 1
  {
    hide At, RowByRow;
    RowsPrefix(chunks, total, out);
    AtIndex(chunks, total, |out| - 1);
    OwnBatch(chunks, At(chunks, total, |out| - 1));
  }

  /** A list without the places lo up to lo + len. */
  function Without<T>(s: seq<T>, lo: nat, len: nat): seq<T>
  {
    s[..Min(lo, |s|)] + s[Min(lo + len, |s|)..]
  }

  lemma WithoutSnoc<T>(s: seq<T>, x: T, lo: nat, len: nat)
    ensures Without(s + [x], lo, len) == Without(s, lo, len) + if lo <= |s| < lo + len then [] else [x]
  {
    var (a, b) := (s[..Min(lo, |s|)], s[Min(lo + len, |s|)..]);
    if |s| < lo {
      assert a == s && b == [];
    } else if |s| < lo + len {
      assert b == [] && (s + [x])[Min(lo + len, |s| + 1)..] == [];
    } else {
      assert (s + [x])[lo + len..] == b + [x];
    }
  }

  /** The burst is a gap in the stream. */
  lemma {:induction false} BurstIsGap(chunks: nat, total: nat, out: seq<Packet>, lo: nat, len: nat)
    requires chunks >= 1 && total >= 1 && RowByRow(chunks, total, out)
    ensures Delivered(BurstLoss(chunks, total, lo, len), out) == Without(out, lo, len)
  {
    hide At, RowByRow, Without, Place;
    if out == [] {
      assert Without(out, lo, len) == [] by { WithoutNothing(out, lo, len); }
    } else {
      RowsPrefix(chunks, total, out);
      BurstIsGap(chunks, total, Front(out), lo, len);
      PlaceIs(chunks, total, out);
      WithoutSnoc(Front(out), Last(out), lo, len);
      assert out == Front(out) + [Last(out)];
    }
  }

  lemma WithoutNothing<T>(s: seq<T>, lo: nat, len: nat)
    requires s == []
    ensures Without(s, lo, len) == []
  {
  }

  lemma LexLess(m: nat, a: nat, b: nat, c: nat, d: nat)
    requires b < m && d < m
    ensures m * a + b < m * c + d <==> a < c || (a == c && b < d)
  {
    assert m * a == a * m && m * c == c * m;
    if a < c { RowsApart(m, a, c); }
    if c < a { RowsApart(m, c, a); }
  }

  /** A burst of k rows' length inside a batch takes k consecutive packets of each of its chunks,
      from row r, or from the row after for the chunks before column q. */
  lemma BurstRows(chunks: nat, total: nat, b: nat, r: nat, q: nat, k: nat, csn: nat, psn: nat)
    requires chunks >= 1 && total >= 1 && q < chunks && chunks * r + q + chunks * k <= chunks * total
    requires csn >= 1 && psn < total
    ensures IndexOf(chunks, total, Pos(b, r, q)) >= 0 && chunks * k >= 0
    ensures var from := if (csn - 1) % chunks < q then r + 1 else r;
      BurstLoss(chunks, total, IndexOf(chunks, total, Pos(b, r, q)), chunks * k)(csn, psn) <==>
        !(BatchOf(chunks, csn) == b && from <= psn < from + k)
  {
    var (x, y) := (BatchOf(chunks, csn), (csn - 1) % chunks);
    assert chunks * r == r * chunks && chunks * k == k * chunks;
    MulMono(0, b, chunks * total);
    MulMono(0, r, chunks);
    MulMono(0, k, chunks);
    MulAdd(chunks, r, k);
    LexLess(chunks, psn, y, r, q);
    LexLess(chunks, psn, y, r + k, q);
    InBurst(chunks, total, b, chunks * r + q, chunks * k, x, y, psn);
  }

  lemma MulAdd(m: int, a: int, b: int)
    ensures m * (a + b) == m * a + m * b
  {
  }

  /** A place is in a burst of batch b when its batch is b and its place in the batch is. */
  lemma InBurst(chunks: nat, total: nat, b: nat, lo: nat, len: nat, x: nat, y: nat, psn: nat)
    requires chunks >= 1 && total >= 1 && lo + len <= chunks * total && y < chunks && psn < total
    ensures var base := b * (chunks * total);
      base + lo <= x * (chunks * total) + chunks * psn + y < base + lo + len <==>
        x == b && lo <= chunks * psn + y < lo + len
  {
    Transposition(chunks, total, y, psn);
    if x < b { RowsApart(chunks * total, x, b); }
    if b < x { RowsApart(chunks * total, b, x); }
  }

  /** What arrives of a chunk that loses k packets from number s on. */
  lemma {:induction false} ArrivedAround(keeps: Loss, csn: nat, s: nat, k: nat, r: nat)
    requires forall psn: nat :: psn < r ==> (keeps(csn, psn) <==> !(s <= psn < s + k))
    ensures Arrived(keeps, csn, r) == if r <= s then r else if r < s + k then s else r - k
  {
    if r > 0 { ArrivedAround(keeps, csn, s, k, r - 1); }
  }

  /** The chunks of the batch of a burst, by their first lost packet. */
  lemma BurstArrivals(chunks: nat, total: nat, b: nat, r: nat, q: nat, k: nat, csn: nat, n: nat)
    requires chunks >= 1 && total >= 1 && q < chunks && chunks * r + q + chunks * k <= chunks * total
    requires csn >= 1 && n <= total
    ensures IndexOf(chunks, total, Pos(b, r, q)) >= 0 && chunks * k >= 0
    ensures var keeps := BurstLoss(chunks, total, IndexOf(chunks, total, Pos(b, r, q)), chunks * k);
      var from := if (csn - 1) % chunks < q then r + 1 else r;
      Arrived(keeps, csn, n) ==
        if BatchOf(chunks, csn) != b || n <= from then n else if n < from + k then from else n - k
  {
    hide BurstLoss;
    BurstRows(chunks, total, b, r, q, k, csn, 0);
    var keeps := BurstLoss(chunks, total, IndexOf(chunks, total, Pos(b, r, q)), chunks * k);
    var from := if (csn - 1) % chunks < q then r + 1 else r;
    var len := if BatchOf(chunks, csn) == b then k else 0;
    forall psn: nat | psn < n ensures keeps(csn, psn) <==> !(from <= psn < from + len) {
      BurstRows(chunks, total, b, r, q, k, csn, psn);
    }
    ArrivedAround(keeps, csn, from, len, n);
  }

  lemma BurstInOrder(data: nat, chunks: nat, total: nat, b: nat, r: nat, q: nat, k: nat, n: nat)
    requires chunks >= 1 && total >= 1 && q < chunks && chunks * r + q + chunks * k <= chunks * total
    requires k + data <= total
    ensures IndexOf(chunks, total, Pos(b, r, q)) >= 0 && chunks * k >= 0
    ensures var keeps := BurstLoss(chunks, total, IndexOf(chunks, total, Pos(b, r, q)), chunks * k);
      EnoughArrive(keeps, data, total, n) && RowsInOrder(keeps, data, total, chunks, n)
  {
    BurstRows(chunks, total, b, r, q, k, 1, 0);
    var keeps := BurstLoss(chunks, total, IndexOf(chunks, total, Pos(b, r, q)), chunks * k);
    hide BurstLoss, Arrived, IndexOf;
    forall csn: nat | 1 <= csn <= n ensures Arrived(keeps, csn, total) >= data {
      BurstArrivals(chunks, total, b, r, q, k, csn, total);
    }
    forall e: nat, csn: nat, m: nat | 1 <= e < csn <= n && BatchOf(chunks, e) == BatchOf(chunks, csn) && m <= total
      ensures Arrived(keeps, csn, m) >= data ==> Arrived(keeps, e, m) >= data
    {
      BurstArrivals(chunks, total, b, r, q, k, csn, m);
      BurstArrivals(chunks, total, b, r, q, k, e, m);
      SameBatchColumns(chunks, e, csn);
    }
  }

  lemma SameBatchColumns(chunks: nat, e: nat, csn: nat)
    requires chunks >= 1 && 1 <= e < csn && BatchOf(chunks, e) == BatchOf(chunks, csn)
    ensures (e - 1) % chunks < (csn - 1) % chunks
  {
    var b := BatchOf(chunks, e);
    assert e - 1 == b * chunks + (e - 1) % chunks && csn - 1 == b * chunks + (csn - 1) % chunks;
  }

  /** Losing any k * chunks consecutive packets within a batch, k up to the packets to spare, costs nothing,
      wherever in the batch the burst begins. */
  lemma AlignedBurst(code: Code, c: Assembler.Config, size: nat, chunks: nat, blocks: seq<seq<byte>>, n: nat,
                     b: nat, r: nat, q: nat, k: nat)
    requires Usable(code) && Sized(code, blocks) && c == LineConfig(code, c.lines)
    requires size >= 1 && 1 <= chunks <= c.lines && Fills(blocks, chunks, n)
    requires q < chunks && chunks * r + q + chunks * k <= chunks * code.total && k <= code.total - Needed(code)
    ensures 0 <= n * chunks <= |blocks| && IndexOf(chunks, code.total, Pos(b, r, q)) >= 0 && chunks * k >= 0
    ensures var keeps := BurstLoss(chunks, code.total, IndexOf(chunks, code.total, Pos(b, r, q)), chunks * k);
      Recovered(code, c, size, Arrivals(code, chunks, blocks, keeps)) == blocks[..n * chunks]
  {
    UsableTotal(code);
    hide Usable, Recovered, Arrivals, Sized, Fills, BurstLoss, IndexOf, RowsInOrder, EnoughArrive;
    BurstInOrder(Needed(code), chunks, code.total, b, r, q, k, n * chunks);
    LossesMadeGood(code, c, size, chunks, blocks, n,
      BurstLoss(chunks, code.total, IndexOf(chunks, code.total, Pos(b, r, q)), chunks * k));
  }
}
