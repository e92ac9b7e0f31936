/** Losses on an in-order link behind the interleaver, and when the assembler survives them. */
module Recovery {
  import opened Lists
  import opened Packets
  import opened Arith
  import opened Assembler
  import opened AssemblerCounts
  import opened AssemblerOrder
  import opened Interleaver
  import opened InterleaverBurst

  /** Which packets get through, by chunk and packet number. */
  type Loss = (nat, nat) -> bool

  /** What an in-order link delivers. */
  function Delivered(keeps: Loss, out: seq<Packet>): seq<Packet>
  {
    if out == [] then []
    else Delivered(keeps, Front(out)) + Through(keeps, Last(out))
  }

  function Through(keeps: Loss, p: Packet): seq<Packet>
  {
    if keeps(p.csn, p.psn) then [p] else []
  }

  /** How many of the first r packets of a chunk get through. */
  function Arrived(keeps: Loss, csn: nat, r: nat): (n: nat)
    ensures n <= r
  {
    if r == 0 then 0 else Arrived(keeps, csn, r - 1) + if keeps(csn, r - 1) then 1 else 0
  }

  /** Every one of the first n chunks keeps at least data packets. */
  ghost predicate EnoughArrive(keeps: Loss, data: nat, total: nat, n: nat) {
    forall csn: nat :: 1 <= csn <= n ==> Arrived(keeps, csn, total) >= data
  }

  function BatchOf(chunks: nat, csn: nat): int
    requires chunks >= 1
  {
    (csn - 1) / chunks
  }

  /** Within a batch no chunk reaches data packets in an earlier row than a lower chunk. */
  ghost predicate RowsInOrder(keeps: Loss, data: nat, total: nat, chunks: nat, n: nat)
    requires chunks >= 1
  {
    forall e: nat, csn: nat, r: nat ::
      1 <= e < csn <= n && BatchOf(chunks, e) == BatchOf(chunks, csn) && r <= total ==>
      (Arrived(keeps, csn, r) >= data ==> Arrived(keeps, e, r) >= data)
  }

  /** At any place of the stream a chunk has arrived as often as its passed rows let it. */
  lemma {:induction false} CountDelivered(keeps: Loss, chunks: nat, total: nat, out: seq<Packet>, csn: nat)
    requires chunks >= 1 && total >= 1 && RowByRow(chunks, total, out)
    ensures Count(Delivered(keeps, out), csn) ==
      Arrived(keeps, csn, Seen(chunks, total, csn, At(chunks, total, |out|)))
  {
    hide Seen, At, Next, Arrived;
    if out == [] {
      AtBatch(chunks, total, 0);
      SeenNothing(chunks, total, csn);
      ArrivedNext(keeps, csn, 0);
    } else {
      var (front, p) := (Front(out), Last(out));
      var at := At(chunks, total, |out| - 1);
      RowsPrefix(chunks, total, out);
      CountDelivered(keeps, chunks, total, front, csn);
      AtStep(chunks, total, |out| - 1);
      SeenNext(chunks, total, csn, at);
      ArrivedNext(keeps, csn, at.r);
      CountAppend(Delivered(keeps, front), Through(keeps, p), csn);
      CountThrough(keeps, p, csn);
    }
  }

  lemma ArrivedNext(keeps: Loss, csn: nat, r: nat)
    ensures Arrived(keeps, csn, 0) == 0
    ensures Arrived(keeps, csn, r + 1) == Arrived(keeps, csn, r) + if keeps(csn, r) then 1 else 0
  {
  }

  lemma RowsPrefix(chunks: nat, total: nat, out: seq<Packet>)
    requires chunks >= 1 && total >= 1 && RowByRow(chunks, total, out) && out != []
    ensures RowByRow(chunks, total, Front(out))
    ensures var at := At(chunks, total, |out| - 1); Last(out).csn == CsnAt(chunks, at) && Last(out).psn == at.r
  {
  }

  lemma CountThrough(keeps: Loss, p: Packet, csn: nat)
    ensures Count(Through(keeps, p), csn) == if keeps(p.csn, p.psn) && p.csn == csn then 1 else 0
  {
    assert Front([p]) == [];
  }

  lemma SeenNothing(chunks: nat, total: nat, csn: nat)
    requires chunks >= 1
    ensures Seen(chunks, total, csn, Pos(0, 0, 0)) == 0
  {
  }

  lemma AtStep(chunks: nat, total: nat, j: nat)
    requires chunks >= 1 && total >= 1
    ensures At(chunks, total, j + 1) == Next(chunks, total, At(chunks, total, j))
  {
  }

  lemma {:induction false} ArrivedMono(keeps: Loss, csn: nat, r: nat, s: nat)
    requires r <= s
    ensures Arrived(keeps, csn, r) <= Arrived(keeps, csn, s)
  {
    if r < s { ArrivedMono(keeps, csn, r, s - 1); }
  }

  // ---- The packet that comes next ----

  /** The batch and column of a chunk number. */
  lemma Column(chunks: nat, csn: nat, p: Pos)
    requires chunks >= 1 && csn >= 1 && p.q < chunks && BatchOf(chunks, csn) == p.b
    ensures p.b * chunks < csn <= p.b * chunks + chunks
    ensures (csn - 1) % chunks == csn - 1 - p.b * chunks
  {
  }

  lemma OwnBatch(chunks: nat, p: Pos)
    requires chunks >= 1 && p.q < chunks
    ensures BatchOf(chunks, CsnAt(chunks, p)) == p.b && (CsnAt(chunks, p) - 1) % chunks == p.q
  {
    ModUnique(p.b * chunks + p.q, chunks, p.b, p.q);
  }

  /** Chunks of earlier batches are complete, chunks of later ones have not begun. */
  lemma OtherBatches(c: Config, keeps: Loss, chunks: nat, out: seq<Packet>, n: nat, e: nat)
    requires ValidConfig(c) && chunks >= 1 && RowByRow(chunks, c.total, out)
    requires EnoughArrive(keeps, c.data, c.total, n) && 1 <= e <= n
    ensures var p := At(chunks, c.total, |out|);
      && (BatchOf(chunks, e) < p.b ==> Count(Delivered(keeps, out), e) >= c.data)
      && (BatchOf(chunks, e) > p.b ==> Count(Delivered(keeps, out), e) == 0)
  {
    hide At, Delivered, RowByRow;
    CountDelivered(keeps, chunks, c.total, out, e);
    assert Arrived(keeps, e, c.total) >= c.data;
  }

  lemma SameRemainder(a: nat, b: nat, m: nat)
    requires m >= 1 && a < b + m && b < a + m && a % m == b % m
    ensures a == b
  {
    RemIsMod(a, m);
    RemIsMod(b, m);
    SameInWindow(a, b, m);
  }

  lemma {:induction false} NothingBeyond(keeps: Loss, chunks: nat, total: nat, out: seq<Packet>, n: nat, e: nat)
    requires chunks >= 1 && total >= 1 && RowByRow(chunks, total, out)
    requires |out| <= n * (chunks * total) && e > n * chunks
    ensures Count(Delivered(keeps, out), e) == 0
  {
    hide At, Delivered, RowByRow;
    CountDelivered(keeps, chunks, total, out, e);
    var p := At(chunks, total, |out|);
    AtIndex(chunks, total, |out|);
    Transposition(chunks, total, p.q, p.r);
    BeforeEnd(chunks, total, p, n);
    BatchBeyond(chunks, e, n);
  }

  /** A place not past the end of batch n is in an earlier batch, or is that end. */
  lemma BeforeEnd(chunks: nat, total: nat, p: Pos, n: nat)
    requires chunks >= 1 && total >= 1 && p.q < chunks && p.r < total
    requires IndexOf(chunks, total, p) <= n * (chunks * total)
    ensures p.b < n || p == Pos(n, 0, 0)
    ensures IndexOf(chunks, total, p) < n * (chunks * total) ==> p.b < n
  {
    var size := chunks * total;
    Transposition(chunks, total, p.q, p.r);
    MulMono(1, chunks, total);
    assert p.r * chunks == chunks * p.r;
    if p.b > n {
      RowsApart(size, n, p.b);
    } else if p.b == n && p.r > 0 {
      MulMono(1, p.r, chunks);
    }
  }

  lemma BatchBeyond(chunks: nat, e: nat, n: nat)
    requires chunks >= 1 && e > n * chunks
    ensures BatchOf(chunks, e) >= n
  {
    var q := (e - 1) / chunks;
    assert e - 1 == q * chunks + (e - 1) % chunks;
    if q < n { MulMono(q + 1, n, chunks); MulSucc(q, chunks); }
  }

  /** Where the next packet of a stream of n batches belongs. */
  lemma NextPlace(chunks: nat, total: nat, out: seq<Packet>, p: Packet, n: nat)
    requires chunks >= 1 && total >= 1 && RowByRow(chunks, total, out + [p]) && |out| < n * (chunks * total)
    ensures RowByRow(chunks, total, out)
    ensures var at := At(chunks, total, |out|); p.csn == CsnAt(chunks, at) && p.psn == at.r
    ensures 1 <= p.csn <= n * chunks && p.psn < total
  {
    hide At, RowByRow, IndexOf;
    var at := At(chunks, total, |out|);
    RowsPrefix(chunks, total, out + [p]);
    assert Front(out + [p]) == out && Last(out + [p]) == p;
    AtIndex(chunks, total, |out|);
    BeforeEnd(chunks, total, at, n);
    InRange(chunks, at, n);
  }

  /** The next packet of the stream is in turn: no other open chunk has its line, and the chunk it
      completes, if any, is the lowest that is not complete. */
  lemma NextInTurn(c: Config, keeps: Loss, chunks: nat, out: seq<Packet>, p: Packet, n: nat)
    requires ValidConfig(c) && c.data >= 2 && 1 <= chunks <= c.lines
    requires RowByRow(chunks, c.total, out + [p]) && |out| < n * (chunks * c.total)
    requires EnoughArrive(keeps, c.data, c.total, n * chunks)
    requires RowsInOrder(keeps, c.data, c.total, chunks, n * chunks)
    requires keeps(p.csn, p.psn)
    ensures InTurn(c, Delivered(keeps, out), p)
  {
    hide At, Delivered, RowByRow, Arrived, RowsInOrder, EnoughArrive, LineFree;
    var h := Delivered(keeps, out);
    NextPlace(chunks, c.total, out, p, n);
    LineIsFree(c, keeps, chunks, out, p, n);
    if Count(h, p.csn) == c.data - 1 {
      forall e: nat | 1 <= e < p.csn ensures Count(h, e) >= c.data {
        LowerComplete(c, keeps, chunks, out, p, n, e);
      }
    }
  }

  /** An open chunk in the line of the next packet is the packet's own. */
  lemma NoClash(c: Config, keeps: Loss, chunks: nat, out: seq<Packet>, p: Packet, n: nat, e: nat)
    requires ValidConfig(c) && 1 <= chunks <= c.lines && RowByRow(chunks, c.total, out)
    requires |out| <= n * (chunks * c.total) && EnoughArrive(keeps, c.data, c.total, n * chunks)
    requires p.csn == CsnAt(chunks, At(chunks, c.total, |out|))
    requires Open(c, Delivered(keeps, out), e) && e % c.lines == p.csn % c.lines
    ensures e == p.csn
  {
    hide At, Delivered, RowByRow, Arrived, Open, EnoughArrive;
    var at := At(chunks, c.total, |out|);
    OpenNearby(c, keeps, chunks, out, n, e);
    Column(chunks, e, at);
    SameRemainder(e, p.csn, c.lines);
  }

  lemma LineIsFree(c: Config, keeps: Loss, chunks: nat, out: seq<Packet>, p: Packet, n: nat)
    requires ValidConfig(c) && 1 <= chunks <= c.lines && RowByRow(chunks, c.total, out)
    requires |out| <= n * (chunks * c.total) && EnoughArrive(keeps, c.data, c.total, n * chunks)
    requires p.csn == CsnAt(chunks, At(chunks, c.total, |out|))
    ensures LineFree(c, Delivered(keeps, out), p.csn)
  {
    hide At, Delivered, RowByRow, EnoughArrive, Open;
    var h := Delivered(keeps, out);
    forall e: nat | Open(c, h, e) && e % c.lines == p.csn % c.lines ensures e == p.csn {
      NoClash(c, keeps, chunks, out, p, n, e);
    }
  }

  lemma InRange(chunks: nat, p: Pos, n: nat)
    requires chunks >= 1 && p.q < chunks && p.b < n
    ensures CsnAt(chunks, p) <= n * chunks
  {
    RowsApart(chunks, p.b, n);
  }

  /** An open chunk belongs to the batch being sent. */
  lemma OpenNearby(c: Config, keeps: Loss, chunks: nat, out: seq<Packet>, n: nat, e: nat)
    requires ValidConfig(c) && chunks >= 1 && RowByRow(chunks, c.total, out)
    requires |out| <= n * (chunks * c.total) && EnoughArrive(keeps, c.data, c.total, n * chunks)
    requires Open(c, Delivered(keeps, out), e)
    ensures e >= 1 && BatchOf(chunks, e) == At(chunks, c.total, |out|).b
  {
    hide At, Delivered, RowByRow, Arrived;
    if e == 0 {
      CountDelivered(keeps, chunks, c.total, out, e);
      ZeroArrived(keeps);
    } else if e > n * chunks {
      NothingBeyond(keeps, chunks, c.total, out, n, e);
    } else {
      OtherBatches(c, keeps, chunks, out, n * chunks, e);
    }
  }

  lemma ZeroArrived(keeps: Loss)
    ensures Arrived(keeps, 0, 0) == 0
  {
  }

  lemma LowerComplete(c: Config, keeps: Loss, chunks: nat, out: seq<Packet>, p: Packet, n: nat, e: nat)
    requires ValidConfig(c) && 1 <= chunks && RowByRow(chunks, c.total, out)
    requires EnoughArrive(keeps, c.data, c.total, n * chunks)
    requires RowsInOrder(keeps, c.data, c.total, chunks, n * chunks)
    requires var at := At(chunks, c.total, |out|); p.csn == CsnAt(chunks, at) && p.psn == at.r
    requires keeps(p.csn, p.psn) && 1 <= e < p.csn <= n * chunks
    requires Count(Delivered(keeps, out), p.csn) == c.data - 1
    ensures Count(Delivered(keeps, out), e) >= c.data
  {
    var at := At(chunks, c.total, |out|);
    ArrivedNext(keeps, p.csn, at.r);
    hide At, Delivered, RowByRow, Arrived, Seen;
    OwnBatch(chunks, at);
    OtherBatches(c, keeps, chunks, out, n * chunks, e);
    CountDelivered(keeps, chunks, c.total, out, p.csn);
    CountDelivered(keeps, chunks, c.total, out, e);
    BatchMono(chunks, e, p.csn);
    if BatchOf(chunks, e) == at.b {
      EarlierColumn(chunks, c.total, e, at);
      assert Arrived(keeps, p.csn, at.r + 1) >= c.data;
    }
  }

  /** In the batch being sent the lower chunks are one packet ahead. */
  lemma EarlierColumn(chunks: nat, total: nat, e: nat, p: Pos)
    requires chunks >= 1 && total >= 1 && p.q < chunks
    requires 1 <= e < CsnAt(chunks, p) && BatchOf(chunks, e) == p.b
    ensures Seen(chunks, total, e, p) == p.r + 1
    ensures Seen(chunks, total, CsnAt(chunks, p), p) == p.r
  {
    Column(chunks, e, p);
    OwnBatch(chunks, p);
  }

  lemma BatchMono(chunks: nat, e: nat, csn: nat)
    requires chunks >= 1 && 1 <= e <= csn
    ensures BatchOf(chunks, e) <= BatchOf(chunks, csn)
  {
    var (x, y) := ((e - 1) / chunks, (csn - 1) / chunks);
    assert e - 1 == x * chunks + (e - 1) % chunks && csn - 1 == y * chunks + (csn - 1) % chunks;
    if x > y { MulMono(y + 1, x, chunks); MulSucc(y, chunks); }
  }

  /** Every loss pattern that leaves each chunk data packets and keeps the rows of each batch in
      order delivers all packets in turn. */
  lemma {:induction false} LossesInTurn(c: Config, keeps: Loss, chunks: nat, out: seq<Packet>, n: nat)
    requires ValidConfig(c) && c.data >= 2 && 1 <= chunks <= c.lines
    requires RowByRow(chunks, c.total, out) && |out| <= n * (chunks * c.total)
    requires EnoughArrive(keeps, c.data, c.total, n * chunks)
    requires RowsInOrder(keeps, c.data, c.total, chunks, n * chunks)
    ensures AllInTurn(c, Delivered(keeps, out))
  {
    if out != [] {
      var (front, p) := (Front(out), Last(out));
      assert out == front + [p];
      RowsPrefix(chunks, c.total, out);
      hide At, RowByRow, RowsInOrder, EnoughArrive, InTurn;
      LossesInTurn(c, keeps, chunks, front, n);
      if keeps(p.csn, p.psn) {
        NextInTurn(c, keeps, chunks, front, p, n);
      }
      DeliverNext(c, keeps, front, p);
    }
  }

  lemma DeliverNext(c: Config, keeps: Loss, out: seq<Packet>, p: Packet)
    requires ValidConfig(c) && AllInTurn(c, Delivered(keeps, out))
    requires keeps(p.csn, p.psn) ==> InTurn(c, Delivered(keeps, out), p)
    ensures AllInTurn(c, Delivered(keeps, out + [p]))
  {
    hide InTurn;
    var h := Delivered(keeps, out);
    assert Front(out + [p]) == out;
    assert h + [] == h && Front(h + [p]) == h;
  }

  /** Such a pattern completes every chunk of the n batches sent. */
  lemma LossesComplete(c: Config, keeps: Loss, chunks: nat, out: seq<Packet>, n: nat, csn: nat)
    requires ValidConfig(c) && chunks >= 1 && RowByRow(chunks, c.total, out) && |out| == n * (chunks * c.total)
    requires EnoughArrive(keeps, c.data, c.total, n * chunks)
    ensures Count(Delivered(keeps, out), csn) >= c.data <==> 1 <= csn <= n * chunks
  {
    hide At, Delivered, RowByRow;
    CountDelivered(keeps, chunks, c.total, out, csn);
    AtBatch(chunks, c.total, n);
    if 1 <= csn <= n * chunks {
      Quotient(csn - 1, chunks, n);
      assert Arrived(keeps, csn, c.total) >= c.data;
    } else if csn > n * chunks {
      NothingBeyond(keeps, chunks, c.total, out, n, csn);
    }
  }
}
