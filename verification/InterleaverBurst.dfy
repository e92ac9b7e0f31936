/** How the interleaver spreads a burst of losses. */
module InterleaverBurst {
  import opened Lists
  import opened Packets
  import opened Arith
  import opened Interleaver
  import opened AssemblerCounts

  /** Two packets of one chunk are at least a row apart. */
  lemma RowApart(chunks: nat, total: nat, i: nat, j: nat)
    requires chunks >= 1 && total >= 1 && i < j
    requires CsnAt(chunks, At(chunks, total, i)) == CsnAt(chunks, At(chunks, total, j))
    ensures i + chunks <= j
  {
    var (a, b) := (At(chunks, total, i), At(chunks, total, j));
    AtIndex(chunks, total, i);
    AtIndex(chunks, total, j);
    ModUnique(a.b * chunks + a.q, chunks, a.b, a.q);
    ModUnique(b.b * chunks + b.q, chunks, b.b, b.q);
    assert chunks * a.r == a.r * chunks && chunks * b.r == b.r * chunks;
    if a.r < b.r {
      RowsApart(chunks, a.r, b.r);
    } else {
      MulMono(b.r, a.r, chunks);
    }
  }

  ghost predicate Spread(s: seq<Packet>, m: nat) {
    forall i, j :: 0 <= i < j < |s| && s[i].csn == s[j].csn ==> i + m <= j
  }

  /** n times m, by addition. */
  function Span(m: nat, n: nat): nat { if n == 0 then 0 else Span(m, n - 1) + m }

  lemma {:induction false} SpanIsProduct(m: nat, n: nat)
    ensures Span(m, n) == n * m
  {
    if n > 0 {
      SpanIsProduct(m, n - 1);
      MulSucc(n - 1, m);
    }
  }

  /** In a list where packets of one chunk are m apart, n of one chunk take more than m * (n - 1)
      places; p is the place of the last of them. */
  lemma {:induction false} SpreadCount(s: seq<Packet>, m: nat, csn: nat) returns (p: nat)
    requires Spread(s, m)
    ensures Count(s, csn) > 0 ==> p < |s| && s[p].csn == csn && Span(m, Count(s, csn) - 1) <= p
    ensures Count(s, csn) > 0 ==> forall i :: p < i < |s| ==> s[i].csn != csn
  {
    p := 0;
    if s != [] {
      var g := Front(s);
      assert s == g + [Last(s)];
      p := SpreadCount(g, m, csn);
      if Last(s).csn == csn {
        if Count(g, csn) > 0 {
          assert g[p] == s[p];
        }
        p := |s| - 1;
      } else if Count(s, csn) > 0 {
        forall i | p < i < |s| ensures s[i].csn != csn {
          if i < |g| { assert g[i] == s[i]; }
        }
      }
    }
  }

  lemma CeilBound(m: nat, n: nat, b: nat)
    requires m >= 1 && (n > 0 ==> Span(m, n - 1) < b)
    ensures n <= (b + m - 1) / m
  {
    if n > 0 {
      var x := (b + m - 1) / m;
      assert b + m - 1 == x * m + (b + m - 1) % m;
      SpanIsProduct(m, n - 1);
      if x < n {
        MulMono(x, n - 1, m);
      }
    }
  }

  /** Any b consecutive packets of the output stream, across batches too, hold at most
      ceil(b / chunks) packets of any one chunk. */
  lemma BurstBound(chunks: nat, total: nat, out: seq<Packet>, i: nat, b: nat, csn: nat)
    requires chunks >= 1 && total >= 1 && RowByRow(chunks, total, out) && i + b <= |out|
    ensures Count(out[i..i + b], csn) <= (b + chunks - 1) / chunks
  {
    hide At;
    var s := out[i..i + b];
    forall x, y | 0 <= x < y < |s| && s[x].csn == s[y].csn ensures x + chunks <= y {
      assert s[x] == out[i + x] && s[y] == out[i + y];
      RowApart(chunks, total, i + x, i + y);
    }
    var p := SpreadCount(s, chunks, csn);
    CeilBound(chunks, Count(s, csn), b);
  }

  lemma {:induction false} CountAppend(g: seq<Packet>, h: seq<Packet>, csn: nat)
    ensures Count(g + h, csn) == Count(g, csn) + Count(h, csn)
  {
    if h == [] {
      assert g + h == g;
    } else {
      assert Front(g + h) == g + Front(h);
      CountAppend(g, Front(h), csn);
    }
  }

  // ---- How much of a chunk has been sent ----

  /** Packets of a chunk among the first j places: all, some rows, or none. */
  function Seen(chunks: nat, total: nat, csn: nat, p: Pos): nat
    requires chunks >= 1
  {
    if csn == 0 || (csn - 1) / chunks > p.b then 0
    else if (csn - 1) / chunks < p.b then total
    else p.r + if (csn - 1) % chunks < p.q then 1 else 0
  }

  lemma SeenNext(chunks: nat, total: nat, csn: nat, p: Pos)
    requires chunks >= 1 && total >= 1 && p.q < chunks && p.r < total
    ensures CsnAt(chunks, p) == csn ==> Seen(chunks, total, csn, p) == p.r
    ensures Seen(chunks, total, csn, Next(chunks, total, p)) ==
      Seen(chunks, total, csn, p) + if CsnAt(chunks, p) == csn then 1 else 0
  {
    ModUnique(p.b * chunks + p.q, chunks, p.b, p.q);
    if csn > 0 {
      var (b, q) := ((csn - 1) / chunks, (csn - 1) % chunks);
      assert csn - 1 == b * chunks + q;
    }
  }

  /** Where the stream stands after n batches. */
  lemma AtBatch(chunks: nat, total: nat, n: nat)
    requires chunks >= 1 && total >= 1
    ensures 0 <= n * (chunks * total)
    ensures At(chunks, total, n * (chunks * total)) == Pos(n, 0, 0)
  {
    hide At;
    var size := chunks * total;
    MulMono(0, n, size);
    var p := At(chunks, total, n * size);
    AtIndex(chunks, total, n * size);
    Transposition(chunks, total, p.q, p.r);
    ModUnique(n * size, size, p.b, chunks * p.r + p.q);
    ModUnique(n * size, size, n, 0);
    assert p.r * chunks == chunks * p.r;
    if p.r > 0 { MulMono(1, p.r, chunks); }
  }

  /** Among the first j places a chunk occurs as often as rows of it have passed. */
  lemma {:induction false} CountSeen(chunks: nat, total: nat, out: seq<Packet>, csn: nat)
    requires chunks >= 1 && total >= 1 && RowByRow(chunks, total, out)
    ensures Count(out, csn) == Seen(chunks, total, csn, At(chunks, total, |out|))
  {
    if out == [] {
      if csn > 0 { assert (csn - 1) / chunks >= 0; }
    } else {
      hide Seen, Next;
      CountSeen(chunks, total, Front(out), csn);
      SeenNext(chunks, total, csn, At(chunks, total, |out| - 1));
    }
  }

  /** Every chunk of the complete batches is sent whole. */
  lemma WholeChunk(chunks: nat, total: nat, out: seq<Packet>, n: nat, csn: nat)
    requires chunks >= 1 && total >= 1 && RowByRow(chunks, total, out)
    requires |out| == n * (chunks * total) && 1 <= csn <= n * chunks
    ensures Count(out, csn) == total
  {
    hide At, RowByRow, Count;
    CountSeen(chunks, total, out, csn);
    AtBatch(chunks, total, n);
    Quotient(csn - 1, chunks, n);
  }

  /** Losing up to chunks * (total - data) consecutive packets leaves every chunk of the complete
      batches at least data packets. */
  lemma BurstLeavesData(chunks: nat, total: nat, data: nat, out: seq<Packet>, n: nat, i: nat, b: nat, csn: nat)
    requires chunks >= 1 && total >= data >= 1 && RowByRow(chunks, total, out)
    requires |out| == n * (chunks * total) && i + b <= |out| && b <= chunks * (total - data)
    requires 1 <= csn <= n * chunks
    ensures Count(out[..i] + out[i + b..], csn) >= data
  {
    hide At, RowByRow, Count;
    var (x, y, z) := (out[..i], out[i..i + b], out[i + b..]);
    CountAppend(x, z, csn);
    CountAppend(x, y, csn);
    CountAppend(x + y, z, csn);
    assert out == (x + y) + z;
    WholeChunk(chunks, total, out, n, csn);
    BurstBound(chunks, total, out, i, b, csn);
    BurstCeil(chunks, total - data, b);
    hide *;
  }

  lemma BurstCeil(m: nat, k: nat, b: nat)
    requires m >= 1 && b <= m * k
    ensures (b + m - 1) / m <= k
  {
    var x := (b + m - 1) / m;
    assert b + m - 1 == x * m + (b + m - 1) % m;
    assert k * m == m * k;
    MulSucc(k, m);
    if x > k {
      MulMono(k + 1, x, m);
    }
  }
}
