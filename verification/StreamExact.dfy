/** Exactly which losses of a stream of interleaver batches are made good. */
module StreamExact {
  import opened Lists
  import opened Bytes
  import opened Packets
  import opened Chunks
  import opened ErasureCode
  import opened EncodeStage
  import opened Arith
  import opened Assembler
  import opened AssemblerCounts
  import opened AssemblerOrder
  import opened Decoder
  import opened EndToEnd
  import opened Recovery
  import opened InterleaverBurst
  import Interleaver
  import RecoveryExact
  import Dispatcher

  // ---- Rows of a batch ----

  /** A place is determined by its index. */
  lemma AtPlace(chunks: nat, total: nat, p: Interleaver.Pos)
    requires p.q < chunks && p.r < total
    ensures Interleaver.IndexOf(chunks, total, p) >= 0
    ensures Interleaver.At(chunks, total, Interleaver.IndexOf(chunks, total, p)) == p
  {
    hide Interleaver.At;
    MulMono(0, p.b, chunks * total);
    Interleaver.Transposition(chunks, total, p.q, p.r);
    var j := Interleaver.IndexOf(chunks, total, p);
    var a := Interleaver.At(chunks, total, j);
    Interleaver.AtIndex(chunks, total, j);
    Interleaver.Transposition(chunks, total, a.q, a.r);
    ModUnique(j, chunks * total, p.b, chunks * p.r + p.q);
    ModUnique(j, chunks * total, a.b, chunks * a.r + a.q);
    SamePlace(chunks, a.r, a.q, p.r, p.q);
  }

  lemma SamePlace(m: nat, a: nat, b: nat, c: nat, d: nat)
    requires b < m && d < m && m * a + b == m * c + d
    ensures a == c && b == d
  {
    assert m * a == a * m && m * c == c * m;
    ModUnique(m * c + d, m, a, b);
    ModUnique(m * c + d, m, c, d);
  }

  /** Where row r of a batch begins. */
  function RowStart(chunks: nat, total: nat, b: nat, r: nat): int { b * (chunks * total) + chunks * r }

  /** There r packets of each chunk of the batch have been sent. */
  lemma RowsSent(chunks: nat, total: nat, csn: nat, r: nat, n: nat)
    requires chunks >= 1 && 1 <= csn <= n * chunks && r <= total && total >= 1
    ensures var at := RowStart(chunks, total, BatchOf(chunks, csn), r);
      0 <= at <= n * (chunks * total) && Seen(chunks, total, csn, Interleaver.At(chunks, total, at)) == r
  {
    hide Interleaver.At;
    var (b, size) := (BatchOf(chunks, csn), chunks * total);
    Interleaver.Quotient(csn - 1, chunks, n);
    RowsApart(size, b, n);
    MulMono(r, total, chunks);
    assert chunks * r == r * chunks && size == total * chunks;
    if r < total {
      AtPlace(chunks, total, Interleaver.Pos(b, r, 0));
    } else {
      MulSucc(b, size);
      AtBatch(chunks, total, b + 1);
    }
  }

  lemma {:induction false} RowsTake(chunks: nat, total: nat, out: seq<Packet>, j: nat)
    requires chunks >= 1 && total >= 1 && Interleaver.RowByRow(chunks, total, out) && j <= |out|
    ensures Interleaver.RowByRow(chunks, total, out[..j])
  {
  }

  lemma DeliveredNext(keeps: Loss, out: seq<Packet>)
    requires out != []
    ensures Delivered(keeps, out) ==
      if keeps(Last(out).csn, Last(out).psn) then Delivered(keeps, Front(out)) + [Last(out)]
      else Delivered(keeps, Front(out))
  {
    var h := Delivered(keeps, Front(out));
    assert h + [] == h;
  }

  lemma CompletedGrows(c: Config, h: seq<Packet>, p: Packet)
    ensures Completed(c, h) <= Completed(c, h + [p])
  {
    assert Front(h + [p]) == h;
  }

  lemma {:induction false} CompletedPrefix(c: Config, keeps: Loss, out: seq<Packet>, j: nat)
    requires j <= |out|
    ensures Completed(c, Delivered(keeps, out[..j])) <= Completed(c, Delivered(keeps, out))
  {
    if j == |out| {
      assert out[..j] == out;
    } else {
      var (front, p) := (Front(out), Last(out));
      hide Delivered, Completed;
      CompletedPrefix(c, keeps, front, j);
      assert front[..j] == out[..j];
      DeliveredNext(keeps, out);
      CompletedGrows(c, Delivered(keeps, front), p);
    }
  }

  /** If the chunks complete in order, the rows of every batch are in order. */
  lemma CompletedRows(c: Config, keeps: Loss, chunks: nat, out: seq<Packet>, n: nat, e: nat, csn: nat, r: nat)
    requires ValidConfig(c) && chunks >= 1 && Interleaver.RowByRow(chunks, c.total, out)
    requires |out| == n * (chunks * c.total) && r <= c.total
    requires 1 <= e < csn <= n * chunks && BatchOf(chunks, e) == BatchOf(chunks, csn)
    requires Completed(c, Delivered(keeps, out)) == UpTo(n * chunks)
    requires Arrived(keeps, csn, r) >= c.data
    ensures Arrived(keeps, e, r) >= c.data
  {
    hide Interleaver.At, Interleaver.RowByRow, Delivered, Completed, Seen, Arrived, RowStart;
    RowsSent(chunks, c.total, csn, r, n);
    RowsSent(chunks, c.total, e, r, n);
    var at := RowStart(chunks, c.total, BatchOf(chunks, e), r);
    var part := out[..at];
    var h := Delivered(keeps, part);
    RowsTake(chunks, c.total, out, at);
    CountDelivered(keeps, chunks, c.total, part, csn);
    CountDelivered(keeps, chunks, c.total, part, e);
    CompletedPrefix(c, keeps, out, at);
    CompletedExact(c, h);
    LowerInPrefix(Completed(c, h), n * chunks, e, csn);
  }

  lemma LowerInPrefix(s: seq<nat>, n: nat, e: nat, csn: nat)
    requires s <= UpTo(n) && 1 <= e < csn && csn in s
    ensures e in s
  {
    var i :| 0 <= i < |s| && s[i] == csn;
    assert UpTo(n)[i] == csn;
    assert s[e - 1] == UpTo(n)[e - 1] == e;
  }

  // ---- A chunk that is passed over in its batch is never pushed ----

  /** Occupied lines belong to chunks of the batch being sent. */
  ghost predicate BatchLines(c: Config, t: Table, chunks: nat, b: nat)
    requires ValidConfig(c) && chunks >= 1 && Shaped(c, t.rows)
  {
    forall k :: 0 <= k < c.lines && t.rows[k].found != 0 ==>
      t.rows[k].csn >= 1 && BatchOf(chunks, t.rows[k].csn) == b && t.rows[k].csn % c.lines == k
  }

  lemma SameBatchApart(chunks: nat, lines: nat, e: nat, csn: nat)
    requires 1 <= chunks <= lines && e >= 1 && csn >= 1 && BatchOf(chunks, e) == BatchOf(chunks, csn)
    requires e % lines == csn % lines
    ensures e == csn
  {
    var b := BatchOf(chunks, e);
    assert e - 1 == b * chunks + (e - 1) % chunks && csn - 1 == b * chunks + (csn - 1) % chunks;
    SameRemainder(e, csn, lines);
  }

  /** Within a batch nothing is evicted and last only grows. */
  lemma BatchStep(c: Config, t: Table, chunks: nat, b: nat, p: Packet)
    requires ValidConfig(c) && c.data >= 2 && Shaped(c, t.rows) && 1 <= chunks <= c.lines && BatchLines(c, t, chunks, b)
    requires p.csn >= 1 && BatchOf(chunks, p.csn) == b && p.psn < c.total
    ensures var (t', out) := Step(c, t, p);
      BatchLines(c, t', chunks, b) && t'.last >= t.last && (out != [] ==> t'.last == p.csn > t.last)
  {
    var k := p.csn % c.lines;
    if t.rows[k].found != 0 { SameBatchApart(chunks, c.lines, t.rows[k].csn, p.csn); }
  }

  /** Chunk e has been passed over for good: a higher one of its batch b has been pushed, or the batch is over. */
  ghost predicate PassedOver(c: Config, keeps: Loss, chunks: nat, out: seq<Packet>, b: nat, e: nat)
    requires ValidConfig(c) && chunks >= 1
  {
    var (h, now) := (Delivered(keeps, out), Interleaver.At(chunks, c.total, |out|).b);
    && e !in PushOrder(c, h) && now >= b
    && (now == b ==> Run(c, h).0.last >= e && BatchLines(c, Run(c, h).0, chunks, b))
  }

  lemma BatchAdvances(chunks: nat, total: nat, j: nat)
    requires chunks >= 1 && total >= 1
    ensures Interleaver.At(chunks, total, j).b <= Interleaver.At(chunks, total, j + 1).b
  {
  }

  lemma PassedOverNext(c: Config, keeps: Loss, chunks: nat, out: seq<Packet>, b: nat, e: nat)
    requires ValidConfig(c) && c.data >= 2 && 1 <= chunks <= c.lines && out != []
    requires Interleaver.RowByRow(chunks, c.total, out) && e >= 1 && BatchOf(chunks, e) == b
    requires PassedOver(c, keeps, chunks, Front(out), b, e)
    ensures PassedOver(c, keeps, chunks, out, b, e)
  {
    hide Interleaver.At, Interleaver.RowByRow, Delivered, BatchOf, BatchLines, Step;
    var (g, p) := (Delivered(keeps, Front(out)), Last(out));
    var at := Interleaver.At(chunks, c.total, |out| - 1);
    RowsPrefix(chunks, c.total, out);
    OwnBatch(chunks, at);
    BatchAdvances(chunks, c.total, |out| - 1);
    DeliveredNext(keeps, out);
    if keeps(p.csn, p.psn) {
      RunSnoc(c, g, p);
      assert Front(g + [p]) == g;
      PushOrderNext(c, g + [p]);
      if at.b == b {
        BatchStep(c, Run(c, g).0, chunks, b, p);
      }
    }
  }

  lemma {:induction false} NeverPushed(c: Config, keeps: Loss, chunks: nat, out: seq<Packet>, j: nat, b: nat, e: nat)
    requires ValidConfig(c) && c.data >= 2 && 1 <= chunks <= c.lines && j <= |out|
    requires Interleaver.RowByRow(chunks, c.total, out) && e >= 1 && BatchOf(chunks, e) == b
    requires PassedOver(c, keeps, chunks, out[..j], b, e)
    ensures e !in PushOrder(c, Delivered(keeps, out))
  {
    hide Interleaver.At, Interleaver.RowByRow, Delivered, BatchOf, PushOrder;
    StaysPassed(c, keeps, chunks, out, j, b, e);
  }

  lemma {:induction false} StaysPassed(c: Config, keeps: Loss, chunks: nat, out: seq<Packet>, j: nat, b: nat, e: nat)
    requires ValidConfig(c) && c.data >= 2 && 1 <= chunks <= c.lines && j <= |out|
    requires Interleaver.RowByRow(chunks, c.total, out) && e >= 1 && BatchOf(chunks, e) == b
    requires PassedOver(c, keeps, chunks, out[..j], b, e)
    ensures PassedOver(c, keeps, chunks, out, b, e)
  {
    hide PassedOver, Interleaver.At, BatchOf;
    if j == |out| {
      assert out[..j] == out;
    } else {
      RowsPrefix(chunks, c.total, out);
      assert Front(out)[..j] == out[..j];
      hide Interleaver.RowByRow;
      StaysPassed(c, keeps, chunks, Front(out), j, b, e);
      PassedOverNext(c, keeps, chunks, out, b, e);
    }
  }

  // ---- Pushing every chunk means arriving in turn ----

  ghost predicate AllPushed(c: Config, h: seq<Packet>, n: nat)
    requires ValidConfig(c)
  {
    forall e: nat :: 1 <= e <= n ==> e in PushOrder(c, h)
  }

  /** A pushed chunk has arrived often enough. */
  lemma PushedEnough(c: Config, h: seq<Packet>, e: nat)
    requires ValidConfig(c) && e in PushOrder(c, h)
    ensures Count(h, e) >= c.data
  {
    hide PushOrder, Run, Live;
    PushBound(c, h, e);
    MulMono(1, Pushes(c, h, e), c.data);
  }

  lemma PushedArrive(c: Config, keeps: Loss, chunks: nat, out: seq<Packet>, n: nat)
    requires ValidConfig(c) && chunks >= 1 && Interleaver.RowByRow(chunks, c.total, out)
    requires |out| == n * (chunks * c.total) && AllPushed(c, Delivered(keeps, out), n * chunks)
    ensures EnoughArrive(keeps, c.data, c.total, n * chunks)
  {
    hide Interleaver.At, Interleaver.RowByRow, Delivered, Seen, Arrived, PushOrder, RowStart;
    forall csn: nat | 1 <= csn <= n * chunks ensures Arrived(keeps, csn, c.total) >= c.data {
      PushedEnough(c, Delivered(keeps, out), csn);
      CountDelivered(keeps, chunks, c.total, out, csn);
      AtBatch(chunks, c.total, n);
      Interleaver.Quotient(csn - 1, chunks, n);
      SentWhole(chunks, c.total, csn, n);
    }
  }

  lemma SentWhole(chunks: nat, total: nat, csn: nat, n: nat)
    requires chunks >= 1 && csn >= 1 && BatchOf(chunks, csn) < n
    ensures Seen(chunks, total, csn, Interleaver.Pos(n, 0, 0)) == total
  {
  }

  /** While the chunks complete in order, occupied lines are those of the batch being sent. */
  lemma OpenBatch(c: Config, keeps: Loss, chunks: nat, out: seq<Packet>, n: nat)
    requires ValidConfig(c) && c.data >= 2 && chunks >= 1 && Interleaver.RowByRow(chunks, c.total, out)
    requires |out| <= n * (chunks * c.total) && EnoughArrive(keeps, c.data, c.total, n * chunks)
    requires OpenLines(c, Delivered(keeps, out), Run(c, Delivered(keeps, out)).0)
    ensures BatchLines(c, Run(c, Delivered(keeps, out)).0, chunks, Interleaver.At(chunks, c.total, |out|).b)
  {
    hide Interleaver.At, Interleaver.RowByRow, Delivered, Run, BatchOf, Open, EnoughArrive;
    var h := Delivered(keeps, out);
    var t := Run(c, h).0;
    forall k | 0 <= k < c.lines && t.rows[k].found != 0
      ensures t.rows[k].csn >= 1 && BatchOf(chunks, t.rows[k].csn) == Interleaver.At(chunks, c.total, |out|).b
      ensures t.rows[k].csn % c.lines == k
    {
      assert OwnedLine(c, h, t.rows[k], k);
      OpenNearby(c, keeps, chunks, out, n, t.rows[k].csn);
    }
  }

  /** A chunk that completes before a lower one of its batch passes it over. */
  lemma CompletionPasses(c: Config, keeps: Loss, chunks: nat, out: seq<Packet>, p: Packet, n: nat, e: nat)
    requires ValidConfig(c) && c.data >= 2 && 1 <= chunks <= c.lines
    requires Interleaver.RowByRow(chunks, c.total, out + [p]) && |out| < n * (chunks * c.total)
    requires EnoughArrive(keeps, c.data, c.total, n * chunks) && keeps(p.csn, p.psn)
    requires var h := Delivered(keeps, out);
      AllInTurn(c, h) && Count(h, p.csn) == c.data - 1 && Count(h, e) < c.data
    requires 1 <= e < p.csn && BatchOf(chunks, e) == Interleaver.At(chunks, c.total, |out|).b
    ensures PassedOver(c, keeps, chunks, out + [p], BatchOf(chunks, e), e)
  {
    hide Interleaver.At, Interleaver.RowByRow, Delivered, BatchOf, BatchLines, AllInTurn, EnoughArrive, Step, OpenLines;
    var h := Delivered(keeps, out);
    var t := Run(c, h).0;
    assert Front(out + [p]) == out && Last(out + [p]) == p && Front(h + [p]) == h;
    RowsPrefix(chunks, c.total, out + [p]);
    OrderedCompletion(c, h);
    OpenBatch(c, keeps, chunks, out, n);
    OwnBatch(chunks, Interleaver.At(chunks, c.total, |out|));
    BatchAdvances(chunks, c.total, |out|);
    DeliveredNext(keeps, out + [p]);
    LineFull(c, h, p, t);
    RunSnoc(c, h, p);
    BatchStep(c, t, chunks, BatchOf(chunks, e), p);
    CountSnoc(h, p, e);
    if e in PushOrder(c, h + [p]) { PushedEnough(c, h + [p], e); }
  }

  /** The data-th packet of an open chunk that owns its line pushes it. */
  lemma LineFull(c: Config, h: seq<Packet>, p: Packet, t: Table)
    requires ValidConfig(c) && c.data >= 2 && Shaped(c, t.rows) && OpenLines(c, h, t)
    requires p.csn >= 1 && p.psn < c.total && Count(h, p.csn) == c.data - 1
    ensures Step(c, t, p).1 != []
  {
    assert Open(c, h, p.csn);
    assert t.rows[p.csn % c.lines] == OpenRow(c, h, p.csn);
    assert !(1 <= p.csn <= t.last);
  }

  /** The next packet is in turn if every chunk is pushed in the end. */
  lemma NextMustBeInTurn(c: Config, keeps: Loss, chunks: nat, out: seq<Packet>, j: nat, n: nat)
    requires ValidConfig(c) && c.data >= 2 && 1 <= chunks <= c.lines
    requires Interleaver.RowByRow(chunks, c.total, out) && |out| == n * (chunks * c.total) && j < |out|
    requires AllPushed(c, Delivered(keeps, out), n * chunks)
    requires AllInTurn(c, Delivered(keeps, out[..j])) && keeps(out[j].csn, out[j].psn)
    ensures InTurn(c, Delivered(keeps, out[..j]), out[j])
  {
    hide Interleaver.At, Interleaver.RowByRow, Delivered, AllInTurn, Arrived, EnoughArrive, AllPushed, LineFree;
    PushedArrive(c, keeps, chunks, out, n);
    var (f, p) := (out[..j], out[j]);
    var h := Delivered(keeps, f);
    assert f + [p] == out[..j + 1];
    RowsTake(chunks, c.total, out, j + 1);
    NextPlace(chunks, c.total, f, p, n);
    LineIsFree(c, keeps, chunks, f, p, n);
    if Count(h, p.csn) == c.data - 1 {
      forall e: nat | 1 <= e < p.csn ensures Count(h, e) >= c.data {
        LowerMustBeComplete(c, keeps, chunks, out, j, n, e);
      }
    }
  }

  lemma LowerMustBeComplete(c: Config, keeps: Loss, chunks: nat, out: seq<Packet>, j: nat, n: nat, e: nat)
    requires ValidConfig(c) && c.data >= 2 && 1 <= chunks <= c.lines
    requires Interleaver.RowByRow(chunks, c.total, out) && |out| == n * (chunks * c.total) && j < |out|
    requires AllPushed(c, Delivered(keeps, out), n * chunks) && EnoughArrive(keeps, c.data, c.total, n * chunks)
    requires var (h, p) := (Delivered(keeps, out[..j]), out[j]);
      AllInTurn(c, h) && keeps(p.csn, p.psn) && Count(h, p.csn) == c.data - 1 && 1 <= e < p.csn <= n * chunks
    ensures Count(Delivered(keeps, out[..j]), e) >= c.data
  {
    hide Interleaver.At, Interleaver.RowByRow, Delivered, BatchOf, AllInTurn, Arrived, EnoughArrive, PushOrder, Open,
      PassedOver;
    var (f, p) := (out[..j], out[j]);
    assert f + [p] == out[..j + 1];
    RowsTake(chunks, c.total, out, j);
    RowsTake(chunks, c.total, out, j + 1);
    RowsPrefix(chunks, c.total, f + [p]);
    OtherBatches(c, keeps, chunks, f, n * chunks, e);
    OwnBatch(chunks, Interleaver.At(chunks, c.total, j));
    BatchMono(chunks, e, p.csn);
    if Count(Delivered(keeps, f), e) < c.data {
      CompletionPasses(c, keeps, chunks, f, p, n, e);
      NeverPushed(c, keeps, chunks, out, j + 1, BatchOf(chunks, e), e);
      assert false;
    }
  }

  lemma {:induction false} PushedInTurn(c: Config, keeps: Loss, chunks: nat, out: seq<Packet>, j: nat, n: nat)
    requires ValidConfig(c) && c.data >= 2 && 1 <= chunks <= c.lines
    requires Interleaver.RowByRow(chunks, c.total, out) && |out| == n * (chunks * c.total) && j <= |out|
    requires AllPushed(c, Delivered(keeps, out), n * chunks)
    ensures AllInTurn(c, Delivered(keeps, out[..j]))
  {
    hide Interleaver.RowByRow, AllPushed, InTurn, Delivered;
    if j > 0 {
      PushedInTurn(c, keeps, chunks, out, j - 1, n);
      assert out[..j] == out[..j - 1] + [out[j - 1]];
      if keeps(out[j - 1].csn, out[j - 1].psn) {
        NextMustBeInTurn(c, keeps, chunks, out, j - 1, n);
      }
      DeliverNext(c, keeps, out[..j - 1], out[j - 1]);
    } else {
      assert Delivered(keeps, []) == [] by { NothingDelivered(keeps); }
    }
  }

  lemma NothingDelivered(keeps: Loss)
    ensures Delivered(keeps, []) == []
  {
  }

  /** When exactly everything is recovered: each chunk keeps data packets, and within a batch no chunk
      reaches its data-th packet in an earlier row than a lower one. */
  ghost predicate Recoverable(keeps: Loss, data: nat, total: nat, chunks: nat, n: nat)
    requires chunks >= 1
  {
    EnoughArrive(keeps, data, total, n * chunks) && RowsInOrder(keeps, data, total, chunks, n * chunks)
  }

  lemma PushedRecoverable(c: Config, keeps: Loss, chunks: nat, out: seq<Packet>, n: nat)
    requires ValidConfig(c) && c.data >= 2 && 1 <= chunks <= c.lines
    requires Interleaver.RowByRow(chunks, c.total, out) && |out| == n * (chunks * c.total)
    requires AllPushed(c, Delivered(keeps, out), n * chunks)
    ensures Recoverable(keeps, c.data, c.total, chunks, n)
  {
    hide Interleaver.RowByRow, Delivered, PushOrder, Arrived, Completed, Run, BatchOf, EnoughArrive, AllInTurn,
      AllPushed;
    var h := Delivered(keeps, out);
    PushedArrive(c, keeps, chunks, out, n);
    PushedInTurn(c, keeps, chunks, out, |out|, n);
    assert out[..|out|] == out;
    OrderedCompletion(c, h);
    AllComplete(c, keeps, chunks, out, n, Run(c, h).0.last);
    forall e: nat, csn: nat, r: nat |
      1 <= e < csn <= n * chunks && BatchOf(chunks, e) == BatchOf(chunks, csn) && r <= c.total
      ensures Arrived(keeps, csn, r) >= c.data ==> Arrived(keeps, e, r) >= c.data
    {
      if Arrived(keeps, csn, r) >= c.data { CompletedRows(c, keeps, chunks, out, n, e, csn, r); }
    }
  }

  lemma RecoverablePushed(c: Config, keeps: Loss, chunks: nat, out: seq<Packet>, n: nat)
    requires ValidConfig(c) && c.data >= 2 && 1 <= chunks <= c.lines
    requires Interleaver.RowByRow(chunks, c.total, out) && |out| == n * (chunks * c.total)
    requires Recoverable(keeps, c.data, c.total, chunks, n)
    ensures n * chunks >= 0 && PushOrder(c, Delivered(keeps, out)) == UpTo(n * chunks)
  {
    hide Interleaver.RowByRow, Delivered, PushOrder, Arrived, Completed, Run, EnoughArrive, RowsInOrder, AllInTurn;
    var h := Delivered(keeps, out);
    MulMono(0, n, chunks);
    LossesInTurn(c, keeps, chunks, out, n);
    OrderedCompletion(c, h);
    AllComplete(c, keeps, chunks, out, n, Run(c, h).0.last);
  }

  lemma UpToAll(n: nat)
    ensures forall e: nat :: 1 <= e <= n ==> e in UpTo(n)
  {
    forall e: nat | 1 <= e <= n ensures e in UpTo(n) { assert UpTo(n)[e - 1] == e; }
  }

  /** For any number of batches and any losses of an in-order link: every chunk is pushed at all, or
      all are pushed once each and in order, exactly when the losses are recoverable. */
  lemma PushedExactly(c: Config, keeps: Loss, chunks: nat, out: seq<Packet>, n: nat)
    requires ValidConfig(c) && c.data >= 2 && 1 <= chunks <= c.lines
    requires Interleaver.RowByRow(chunks, c.total, out) && |out| == n * (chunks * c.total)
    ensures AllPushed(c, Delivered(keeps, out), n * chunks) <==> Recoverable(keeps, c.data, c.total, chunks, n)
    ensures n * chunks >= 0
    ensures PushOrder(c, Delivered(keeps, out)) == UpTo(n * chunks) <==> Recoverable(keeps, c.data, c.total, chunks, n)
  {
    hide Interleaver.RowByRow, Delivered, PushOrder, Recoverable;
    MulMono(0, n, chunks);
    var h := Delivered(keeps, out);
    if Recoverable(keeps, c.data, c.total, chunks, n) { RecoverablePushed(c, keeps, chunks, out, n); }
    UpToAll(n * chunks);
    if AllPushed(c, h, n * chunks) { PushedRecoverable(c, keeps, chunks, out, n); }
  }

  // ---- End to end ----

  function Elements(s: seq<nat>): set<nat>
  {
    if s == [] then {} else Elements(Front(s)) + {Last(s)}
  }

  lemma {:induction false} ElementsIn(s: seq<nat>)
    ensures forall x :: x in Elements(s) <==> x in s
  {
    if s != [] {
      ElementsIn(Front(s));
      assert s == Front(s) + [Last(s)];
    }
  }

  lemma {:induction false} ElementsCount(s: seq<nat>)
    requires forall x :: multiset(s)[x] <= 1
    ensures |Elements(s)| == |s|
  {
    if s != [] {
      var (f, l) := (Front(s), Last(s));
      assert s == f + [l];
      assert multiset(s) == multiset(f) + multiset{l};
      forall x ensures multiset(f)[x] <= 1 { assert multiset(s)[x] <= 1; }
      ElementsCount(f);
      ElementsIn(f);
      assert multiset(s)[l] <= 1;
    }
  }

  lemma ElementMissing(all: set<nat>, n: nat, e: nat)
    requires 1 <= e <= n && e !in all && forall x :: x in all ==> 1 <= x <= n
    ensures |all| < n
  {
    BoundedSet(all + {0, e}, n + 1);
    assert |all + {0, e}| == |all| + 2;
  }

  /** Without double pushes, as many pushes as chunks are pushes of every chunk. */
  lemma AllThere(s: seq<nat>, n: nat)
    requires (forall x :: multiset(s)[x] <= 1) && BlockNumbers(s, n) && |s| >= n
    ensures forall e: nat :: 1 <= e <= n ==> e in s
  {
    ElementsCount(s);
    ElementsIn(s);
    forall e: nat | 1 <= e <= n ensures e in s {
      if e !in s { ElementMissing(Elements(s), n, e); }
    }
  }

  lemma {:induction false} PushCount(c: Config, h: seq<Packet>)
    requires ValidConfig(c)
    ensures |PushOrder(c, h)| == |Run(c, h).1|
  {
    if h != [] {
      hide Step;
      PushCount(c, Front(h));
    }
  }

  /** As many results as there are chunks need a push of every chunk, when none is pushed twice. */
  lemma EnoughResults(code: Code, c: Config, size: nat, h: seq<Packet>, n: nat)
    requires ValidConfig(c) && size >= 1 && InBounds(c, h) && Distinct(h) && c.total < 2 * c.data
    requires BlockNumbers(PushOrder(c, h), n) && |Recovered(code, c, size, h)| >= n
    ensures AllPushed(c, h, n)
  {
    hide Run, PushOrder, Recovered, Distinct, InBounds;
    RecoveryExact.ResultsBound(code, c, size, h);
    PushCount(c, h);
    forall x: nat ensures multiset(PushOrder(c, h))[x] <= 1 { PushedOnce(c, h, x); }
    AllThere(PushOrder(c, h), n);
  }

  /** All chunks of the first k blocks are among those restored. */
  ghost predicate AllRestored(code: Code, blocks: seq<seq<byte>>, restored: seq<ChunkV>, k: nat)
    requires k <= |blocks| < TWO64 - 1
  {
    forall i :: 0 <= i < k ==> ChunkOf(code, i + 1, blocks[i]) in restored
  }

  lemma ChosenIs(code: Code, blocks: seq<seq<byte>>, s: seq<nat>, k: nat)
    requires k <= |blocks| < TWO64 - 1 && BlockNumbers(s, |blocks|)
    ensures Chosen(code, blocks, s) == ChunksOf(code, blocks[..k]) <==> s == UpTo(k)
  {
    var (cs, all) := (Chosen(code, blocks, s), ChunksOf(code, blocks[..k]));
    if cs == all {
      forall i | 0 <= i < k ensures s[i] == i + 1 { assert cs[i] == all[i]; }
    }
  }

  /** A chunk is among those chosen exactly when its number is. */
  lemma ChosenIn(code: Code, blocks: seq<seq<byte>>, s: seq<nat>, i: nat)
    requires i < |blocks| < TWO64 - 1 && BlockNumbers(s, |blocks|)
    ensures ChunkOf(code, i + 1, blocks[i]) in Chosen(code, blocks, s) <==> i + 1 in s
  {
    var cs := Chosen(code, blocks, s);
    if ChunkOf(code, i + 1, blocks[i]) in cs {
      var j :| 0 <= j < |cs| && cs[j] == ChunkOf(code, i + 1, blocks[i]);
      assert s[j] == i + 1;
    }
    if i + 1 in s {
      var j :| 0 <= j < |s| && s[j] == i + 1;
      assert cs[j] == ChunkOf(code, i + 1, blocks[i]);
    }
  }

  lemma ChosenAll(code: Code, blocks: seq<seq<byte>>, s: seq<nat>, k: nat)
    requires k <= |blocks| < TWO64 - 1 && BlockNumbers(s, |blocks|)
    ensures AllRestored(code, blocks, Chosen(code, blocks, s), k) <==> forall e: nat :: 1 <= e <= k ==> e in s
  {
    hide Chosen, ChunkOf, BlockNumbers;
    var cs := Chosen(code, blocks, s);
    forall i: nat | i < k ensures ChunkOf(code, i + 1, blocks[i]) in cs <==> i + 1 in s {
      ChosenIn(code, blocks, s, i);
    }
    if AllRestored(code, blocks, cs, k) {
      forall e: nat | 1 <= e <= k ensures e in s { ChosenIn(code, blocks, s, e - 1); }
    }
  }

  /** The arrivals are what is delivered of a stream sent row by row. */
  lemma ArrivalsAre(code: Code, chunks: nat, blocks: seq<seq<byte>>, n: nat, keeps: Loss) returns (out: seq<Packet>)
    requires Usable(code) && Sized(code, blocks) && chunks >= 1 && Fills(blocks, chunks, n)
    ensures code.total >= 1 && Interleaver.RowByRow(chunks, code.total, out) && |out| == n * (chunks * code.total)
    ensures Arrivals(code, chunks, blocks, keeps) == Delivered(keeps, out)
    ensures Genuine(code, blocks, Delivered(keeps, out)) && Distinct(Delivered(keeps, out))
  {
    UsableTotal(code);
    hide Usable, Encode, Interleaver.Run, Interleaver.RowByRow, Genuine, Delivered, Distinct, Sized, Fills;
    out := Interleaver.Run(chunks, code.total, Encode(code, blocks)).1;
    StreamGenuine(code, chunks, blocks);
    StreamRows(code, chunks, blocks);
    StreamLength(code, chunks, blocks, n);
    StreamDistinct(chunks, code.total, out);
    DeliveredGenuine(code, blocks, keeps, out);
    DeliveredDistinct(keeps, out);
  }

  /** Only chunks of the batches sent are pushed. */
  lemma FullNumbers(c: Config, keeps: Loss, chunks: nat, out: seq<Packet>, n: nat, m: nat)
    requires ValidConfig(c) && chunks >= 1 && Interleaver.RowByRow(chunks, c.total, out)
    requires |out| == n * (chunks * c.total) && BlockNumbers(PushOrder(c, Delivered(keeps, out)), m)
    ensures n * chunks >= 0 && BlockNumbers(PushOrder(c, Delivered(keeps, out)), n * chunks)
  {
    hide Interleaver.RowByRow, Delivered, PushOrder;
    MulMono(0, n, chunks);
    var s := PushOrder(c, Delivered(keeps, out));
    forall i | 0 <= i < |s| ensures s[i] <= n * chunks {
      assert s[i] in s;
      PushedEnough(c, Delivered(keeps, out), s[i]);
      if s[i] > n * chunks { NothingBeyond(keeps, chunks, c.total, out, n, s[i]); }
    }
  }

  /** No two blocks are the same. */
  ghost predicate AllDifferent(blocks: seq<seq<byte>>) {
    forall i, j :: 0 <= i < j < |blocks| ==> blocks[i] != blocks[j]
  }

  /** Where no two blocks are the same, a delivered block shows that its chunk was pushed. */
  lemma DeliveredShows(code: Code, size: nat, blocks: seq<seq<byte>>, s: seq<nat>, n: nat, e: nat)
    requires n <= |blocks| < TWO64 - 1 && size >= 1 && BlockNumbers(s, n) && BlockNumbers(s, |blocks|)
    requires AllDifferent(blocks[..n]) && 1 <= e <= n
    requires Dispatcher.Results(Dispatcher.Run(size, Chosen(code, blocks, s)).1) == blocks[..n]
    ensures e in s
  {
    hide Dispatcher.Run, Dispatcher.Results;
    var x := blocks[..n][e - 1];
    assert x in blocks[..n];
    var i := ResultFrom(size, Chosen(code, blocks, s), x);
    assert blocks[..n][s[i] - 1] == x;
  }

  /** The results determine which chunks were recovered: none can be pushed twice, or no two blocks
      are the same. */
  ghost predicate Telling(code: Code, blocks: seq<seq<byte>>) {
    code.total < 2 * Needed(code) || AllDifferent(blocks)
  }

  lemma ResultsShow(code: Code, c: Config, size: nat, chunks: nat, blocks: seq<seq<byte>>, out: seq<Packet>, n: nat,
                    keeps: Loss)
    requires Usable(code) && Sized(code, blocks) && c == LineConfig(code, c.lines) && c.lines >= 1 && size >= 1
    requires chunks >= 1 && Interleaver.RowByRow(chunks, code.total, out) && |out| == n * (chunks * code.total)
    requires Genuine(code, blocks, Delivered(keeps, out)) && Distinct(Delivered(keeps, out))
    requires 0 <= n * chunks <= |blocks| && Telling(code, blocks[..n * chunks])
    requires ValidConfig(c) && Recovered(code, c, size, Delivered(keeps, out)) == blocks[..n * chunks]
    ensures ValidConfig(Effective(c)) && AllPushed(Effective(c), Delivered(keeps, out), n * chunks)
  {
    UsableTotal(code);
    var (h, k, c') := (Delivered(keeps, out), n * chunks, Effective(c));
    RestoredAre(code, c, blocks, h);
    GenuineBounds(code, c', blocks, h);
    RunEffective(c, h);
    PushOrderEffective(c, h);
    hide Usable, Genuine, Distinct, Sized, RestoreAll, Run, PushOrder, Delivered, Interleaver.RowByRow, AllDifferent,
      BlockNumbers, Dispatcher.Run, Dispatcher.Results, Chosen, InBounds;
    FullNumbers(c', keeps, chunks, out, n, |blocks|);
    if code.total < 2 * Needed(code) {
      EnoughResults(code, c', size, h, k);
    } else {
      forall e: nat | 1 <= e <= k ensures e in PushOrder(c', h) {
        DeliveredShows(code, size, blocks, PushOrder(c', h), k, e);
      }
    }
  }

  /** Any number of batches over an in-order link, any losses: the chunks of all full batches are
      restored, in any order at all, if and only if the losses are recoverable; and then they are
      restored once each and in order. With less than double redundancy, or where no two blocks are
      the same, so it is with the blocks delivered. */
  lemma StreamRecoveredExactly(code: Code, c: Config, size: nat, chunks: nat, blocks: seq<seq<byte>>, n: nat,
                               keeps: Loss)
    requires Usable(code) && Sized(code, blocks) && c == LineConfig(code, c.lines)
    requires size >= 1 && 1 <= chunks <= c.lines && Fills(blocks, chunks, n)
    ensures 0 <= n * chunks <= |blocks| && ValidConfig(c)
    ensures var restored := RestoreAll(code, Assembler.Run(c, Arrivals(code, chunks, blocks, keeps)).1);
      var recoverable := Recoverable(keeps, Needed(code), code.total, chunks, n);
      && (AllRestored(code, blocks, restored, n * chunks) <==> recoverable)
      && (restored == ChunksOf(code, blocks[..n * chunks]) <==> recoverable)
    ensures Telling(code, blocks[..n * chunks]) ==>
      (Recovered(code, c, size, Arrivals(code, chunks, blocks, keeps)) == blocks[..n * chunks] <==>
       Recoverable(keeps, Needed(code), code.total, chunks, n))
  {
    UsableTotal(code);
    MulMono(0, n, chunks);
    var out := ArrivalsAre(code, chunks, blocks, n, keeps);
    var (h, c') := (Delivered(keeps, out), Effective(c));
    hide Usable, Genuine, Distinct, Sized, Recovered, RestoreAll, Run, PushOrder, Delivered, Interleaver.RowByRow,
      Arrivals, EnoughArrive, RowsInOrder, AllRestored, Telling;
    RestoredAre(code, c, blocks, h);
    PushOrderEffective(c, h);
    PushedExactly(c', keeps, chunks, out, n);
    ChosenIs(code, blocks, PushOrder(c, h), n * chunks);
    ChosenAll(code, blocks, PushOrder(c, h), n * chunks);
    if Recoverable(keeps, Needed(code), code.total, chunks, n) {
      LossesMadeGood(code, c, size, chunks, blocks, n, keeps);
    } else if Telling(code, blocks[..n * chunks]) && Recovered(code, c, size, h) == blocks[..n * chunks] {
      ResultsShow(code, c, size, chunks, blocks, out, n, keeps);
    }
  }
}
