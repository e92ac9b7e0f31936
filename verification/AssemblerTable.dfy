/** Decoder.assembly over its flat arrays (src/codec/decoder.go:222-308), in place. */
module AssemblerTable {
  import opened Lists
  import opened Bytes
  import opened Packets
  import opened Assembler
  import opened Arith

  // ---- Index arithmetic: the flat array is lines rows of total slots ----

  /** Slot psn of the row of csn, for psn below total. */
  lemma SlotIndex(csn: nat, psn: nat, total: nat, lines: nat)
    requires psn < total && lines >= 1
    ensures 0 <= csn % lines * total <= csn % lines * total + total <= lines * total
    ensures (csn * total + psn) % (lines * total) == csn % lines * total + psn
  {
    var (q, k) := (csn / lines, csn % lines);
    assert csn == q * lines + k;
    RowsApart(total, k, lines);
    assert csn * total == q * lines * total + k * total;
    assert q * lines * total == q * (lines * total);
    ModUnique(csn * total + psn, lines * total, q, k * total + psn);
  }

  /** The packet index of the source, psn = total included. */
  lemma PacketIndex(c: Config, csn: nat, psn: nat)
    requires ValidConfig(c) && psn <= c.total
    ensures (csn * c.total + psn) % (c.lines * c.total) ==
      if psn == c.total then (csn + 1) % c.lines * c.total else csn % c.lines * c.total + psn
  {
    if psn == c.total {
      SlotIndex(csn + 1, 0, c.total, c.lines);
      assert (csn + 1) * c.total + 0 == csn * c.total + psn;
    } else {
      SlotIndex(csn, psn, c.total, c.lines);
    }
  }

  /** chunkStart and chunkEnd, with its correction from 0 to size, bound the row of csn. */
  lemma RowRange(c: Config, csn: nat)
    requires ValidConfig(c)
    ensures var size := c.lines * c.total;
      var start := csn * c.total % size;
      var end := (csn + 1) * c.total % size;
      start == csn % c.lines * c.total && (if end == 0 then size else end) == start + c.total <= size
  {
    var size := c.lines * c.total;
    SlotIndex(csn, 0, c.total, c.lines);
    SlotIndex(csn + 1, 0, c.total, c.lines);
    var k := csn % c.lines;
    NextRem(csn, c.lines);
    if k + 1 < c.lines {
      RowsApart(c.total, k + 1, c.lines);
    }
    MulSucc(k, c.total);
    MulMono(1, k + 1, c.total);
  }

  lemma RowInside(c: Config, k: nat)
    requires k < c.lines
    ensures 0 <= k * c.total <= k * c.total + c.total <= c.lines * c.total
  {
    RowsApart(c.total, k, c.lines);
  }

  // ---- The table the arrays stand for ----

  ghost predicate FlatShape(c: Config, found: seq<nat>, csn: seq<nat>, packets: Vector) {
    |found| == |csn| == c.lines && |packets| == c.lines * c.total
  }

  function RowOf(c: Config, found: seq<nat>, csn: seq<nat>, packets: Vector, k: nat): (row: Row)
    requires FlatShape(c, found, csn, packets) && k < c.lines
    ensures |row.slots| == c.total
  {
    RowInside(c, k);
    Row(found[k], csn[k], packets[k * c.total..k * c.total + c.total])
  }

  function RowsOf(c: Config, found: seq<nat>, csn: seq<nat>, packets: Vector): (rows: seq<Row>)
    requires FlatShape(c, found, csn, packets)
    ensures Shaped(c, rows)
    ensures forall k :: 0 <= k < c.lines ==> rows[k] == RowOf(c, found, csn, packets, k)
  {
    seq(c.lines, k requires 0 <= k < c.lines => RowOf(c, found, csn, packets, k))
  }

  lemma CountersFlat(c: Config, found: seq<nat>, csn: seq<nat>, packets: Vector, k: nat, x: nat, y: nat)
    requires FlatShape(c, found, csn, packets) && k < c.lines
    ensures var rows := RowsOf(c, found, csn, packets);
      RowsOf(c, found[k := x], csn[k := y], packets) == rows[k := rows[k].(found := x, csn := y)]
  {
  }

  lemma EmptyFlat(c: Config, found: seq<nat>, csn: seq<nat>, packets: Vector)
    requires ValidConfig(c) && FlatShape(c, found, csn, packets)
    requires forall k :: 0 <= k < c.lines ==> found[k] == 0 && csn[k] == 0
    requires forall i :: 0 <= i < |packets| ==> packets[i] == None
    ensures RowsOf(c, found, csn, packets) == EmptyTable(c).rows
  {
    forall k | 0 <= k < c.lines ensures RowOf(c, found, csn, packets, k) == EmptyRow(c) {
      RowInside(c, k);
    }
  }

  lemma StoreFlat(c: Config, found: seq<nat>, csn: seq<nat>, packets: Vector, p: Packet)
    requires ValidConfig(c) && p.psn <= c.total
    requires FlatShape(c, found, csn, packets)
    ensures var at := (p.csn * c.total + p.psn) % (c.lines * c.total);
      RowsOf(c, found, csn, packets[at := Some(p)]) == Store(c, RowsOf(c, found, csn, packets), p)
  {
    PacketIndex(c, p.csn, p.psn);
    var k := (if p.psn == c.total then p.csn + 1 else p.csn) % c.lines;
    var s := if p.psn == c.total then 0 else p.psn;
    var at := k * c.total + s;
    RowInside(c, k);
    forall j | 0 <= j < c.lines
      ensures RowOf(c, found, csn, packets[at := Some(p)], j) ==
        Store(c, RowsOf(c, found, csn, packets), p)[j]
    {
      RowInside(c, j);
      if j < k { RowsApart(c.total, j, k); } else if k < j { RowsApart(c.total, k, j); }
    }
  }

  /** Emptying the slots from start to end. */
  function Cleared(packets: Vector, start: nat, end: nat): Vector
    requires start <= end <= |packets|
  {
    packets[..start] + NoSlots(end - start) + packets[end..]
  }

  lemma ClearFlat(c: Config, found: seq<nat>, csn: seq<nat>, packets: Vector, k: nat)
    requires k < c.lines && FlatShape(c, found, csn, packets)
    ensures 0 <= k * c.total <= k * c.total + c.total <= |packets|
    ensures var rows := RowsOf(c, found, csn, packets);
      RowsOf(c, found, csn, Cleared(packets, k * c.total, k * c.total + c.total)) ==
        rows[k := rows[k].(slots := NoSlots(c.total))]
  {
    RowInside(c, k);
    var rows := RowsOf(c, found, csn, packets);
    var cleared := Cleared(packets, k * c.total, k * c.total + c.total);
    forall j | 0 <= j < c.lines
      ensures RowOf(c, found, csn, cleared, j) == rows[k := rows[k].(slots := NoSlots(c.total))][j]
    {
      RowInside(c, j);
      if j < k { RowsApart(c.total, j, k); } else if k < j { RowsApart(c.total, k, j); }
    }
  }

  /** The flat form of a packet that opens a chunk in its line. */
  lemma OpenedFlat(c: Config, found: seq<nat>, csn: seq<nat>, packets: Vector, p: Packet)
    requires ValidConfig(c) && FlatShape(c, found, csn, packets) && p.psn <= c.total
    ensures var (k, at) := (p.csn % c.lines, (p.csn * c.total + p.psn) % (c.lines * c.total));
      RowsOf(c, found[k := 1], csn[k := p.csn], packets[at := Some(p)]) ==
        Opened(c, RowsOf(c, found, csn, packets), p)
  {
    var (k, at) := (p.csn % c.lines, (p.csn * c.total + p.psn) % (c.lines * c.total));
    StoreFlat(c, found, csn, packets, p);
    CountersFlat(c, found, csn, packets[at := Some(p)], k, 1, p.csn);
  }

  /** The flat form of a packet of the chunk that owns its line. */
  lemma ExtendedFlat(c: Config, found: seq<nat>, csn: seq<nat>, packets: Vector, last: nat, p: Packet)
    requires ValidConfig(c) && FlatShape(c, found, csn, packets) && p.psn <= c.total
    ensures var (k, at) := (p.csn % c.lines, (p.csn * c.total + p.psn) % (c.lines * c.total));
      var start := k * c.total;
      0 <= start <= start + c.total <= |packets|
    ensures var (k, at) := (p.csn % c.lines, (p.csn * c.total + p.psn) % (c.lines * c.total));
      var (start, stored) := (k * c.total, packets[at := Some(p)]);
      Extended(c, Assembler.Table(RowsOf(c, found, csn, packets), last), p) ==
      if found[k] + 1 >= c.data then
        (Assembler.Table(RowsOf(c, found[k := 0], csn[k := 0], Cleared(stored, start, start + c.total)), p.csn),
         [stored[start..start + c.total]])
      else (Assembler.Table(RowsOf(c, found[k := found[k] + 1], csn, stored), last), [])
  {
    var (k, at) := (p.csn % c.lines, (p.csn * c.total + p.psn) % (c.lines * c.total));
    var stored := packets[at := Some(p)];
    var start := k * c.total;
    RowInside(c, k);
    StoreFlat(c, found, csn, packets, p);
    var rows := RowsOf(c, found, csn, stored);
    assert rows[k] == RowOf(c, found, csn, stored, k);
    if found[k] + 1 >= c.data {
      ClearFlat(c, found, csn, stored, k);
      CountersFlat(c, found, csn, Cleared(stored, start, start + c.total), k, 0, 0);
      assert RowsOf(c, found[k := 0], csn[k := 0], Cleared(stored, start, start + c.total)) == rows[k := EmptyRow(c)];
    } else {
      CountersFlat(c, found, csn, stored, k, found[k] + 1, csn[k]);
      assert csn[k := csn[k]] == csn;
    }
  }

  // ---- 64-bit arithmetic ----

  /** What wrapping takes off a number is a multiple of the size. */
  ghost predicate KeepsRem(x: nat, size: nat)
    requires size >= 1
  {
    x / TWO64 * TWO64 % size == 0
  }

  /** The products for a packet wrap at 2^64 without losing the place in the table, or do not wrap. */
  ghost predicate InStep(c: Config, csn: nat, psn: nat)
    requires ValidConfig(c)
  {
    && 0 <= csn * c.total && c.lines * c.total >= 1
    && KeepsRem(csn * c.total + psn, c.lines * c.total)
    && KeepsRem(csn * c.total, c.lines * c.total) && KeepsRem(csn * c.total + c.total, c.lines * c.total)
  }

  /** Wrapping keeps the remainder exactly when it takes off a multiple. */
  lemma WrapMod(x: nat, size: nat)
    requires size >= 1
    ensures Wrap64(x) % size == x % size <==> KeepsRem(x, size)
  {
    RemDifference(x / TWO64 * TWO64, x % TWO64, size);
  }

  lemma RemDifference(m: nat, y: nat, n: nat)
    requires n >= 1
    ensures y % n == (m + y) % n <==> m % n == 0
  {
    if m % n == 0 {
      assert m == m / n * n + m % n;
      ModAdd(y, n, m / n);
    }
    if y % n == (m + y) % n { DifferenceRem(m, y, n); }
  }

  lemma DifferenceRem(m: nat, y: nat, n: nat)
    requires n >= 1 && y % n == (m + y) % n
    ensures m % n == 0
  {
    var (a, b) := ((m + y) / n, y / n);
    assert m + y == a * n + (m + y) % n && y == b * n + y % n;
    if a < b { RowsApart(n, a, b); }
    MulLess(a, b, n);
    ModUnique(m, n, a - b, 0);
  }

  lemma MulLess(a: int, b: int, n: int)
    ensures a * n - b * n == (a - b) * n
  {
  }

  /** Adding to a wrapped number wraps to the same. */
  lemma WrapAdd(x: nat, y: nat)
    ensures Wrap64(Wrap64(x) + y) == Wrap64(x + y)
  {
    ModSum(x, y, TWO64);
  }

  lemma WrapTimes(a: nat, t: nat)
    ensures 0 <= Wrap64(a) * t && Wrap64(Wrap64(a) * t) == Wrap64(a * t)
  {
    ModFactor(a, t, TWO64);
  }

  /** Every index of the source, as the line and slot of the packet. */
  lemma Indices(c: Config, size: uint64, csn: uint64, psn: nat)
    requires ValidConfig(c) && size == c.lines * c.total && psn <= c.total && InStep(c, csn, psn)
    ensures 0 <= csn * c.total && 0 <= Wrap64(csn + 1) * c.total
    ensures Wrap64(Wrap64(csn * c.total) + psn) % size == (csn * c.total + psn) % size
    ensures var end := Wrap64(Wrap64(csn + 1) * c.total) % size;
      (if end == 0 then size else end) == csn % c.lines * c.total + c.total
    ensures Wrap64(csn * c.total) % size == csn % c.lines * c.total
    ensures csn % c.lines * c.total + c.total <= size
  {
    MulSucc(csn, c.total);
    MulMono(0, csn, c.total);
    var x := csn * c.total;
    WrapTimes(csn + 1, c.total);
    WrapAdd(x, psn);
    hide Wrap64, KeepsRem;
    WrapMod(x, size);
    WrapMod(x + psn, size);
    WrapMod(x + c.total, size);
    RowRange(c, csn);
  }

  /** The packet index the source computes is the right one. */
  ghost predicate IndexRight(c: Config, csn: uint64, psn: nat)
    requires ValidConfig(c) && c.lines * c.total > 0
  {
    var size := c.lines * c.total;
    Wrap64(Wrap64(csn * c.total) + psn) % size == (csn * c.total + psn) % size
  }

  /** The index of a packet is right exactly when wrapping takes off a multiple of the size. */
  lemma IndexExact(c: Config, csn: uint64, psn: nat)
    requires ValidConfig(c) && c.lines * c.total > 0
    ensures 0 <= csn * c.total
    ensures IndexRight(c, csn, psn) <==> KeepsRem(csn * c.total + psn, c.lines * c.total)
  {
    MulMono(0, csn, c.total);
    WrapAdd(csn * c.total, psn);
    hide Wrap64, KeepsRem;
    WrapMod(csn * c.total + psn, c.lines * c.total);
  }

  lemma MultipleRem(q: nat, m: nat, n: nat)
    requires n >= 1 && m % n == 0
    ensures 0 <= q * m && q * m % n == 0
  {
    MulMono(0, q, m);
    var k := m / n;
    assert m == k * n;
    assert q * m == q * k * n;
    MulMono(0, q, k);
    ModUnique(q * m, n, q * k, 0);
  }

  /** The packet whose index is 2^64 before it wraps. */
  lemma FirstWrapped(total: nat) returns (csn: uint64, psn: nat)
    requires total >= 2
    ensures psn < total && csn * total + psn == TWO64
  {
    var q := TWO64 / total;
    psn := TWO64 % total;
    assert TWO64 == q * total + psn;
    MulMono(2, total, q);
    assert total * q == q * total;
    csn := q;
  }

  /** Indices are right for all packets exactly when the size of the table divides 2^64. */
  lemma TableExact(c: Config)
    requires ValidConfig(c) && c.lines * c.total > 0
    ensures (forall csn: uint64, psn: nat :: psn < c.total ==> IndexRight(c, csn, psn))
      <==> TWO64 % (c.lines * c.total) == 0
  {
    hide IndexRight;
    if TWO64 % (c.lines * c.total) == 0 {
      forall csn: uint64, psn: nat | psn < c.total ensures IndexRight(c, csn, psn) {
        IndexExact(c, csn, psn);
        MultipleRem((csn * c.total + psn) / TWO64, TWO64, c.lines * c.total);
      }
    } else {
      var csn, psn := FirstWrapped(c.total);
      IndexExact(c, csn, psn);
    }
  }

  class Table {
    const c: Config
    const size: uint64
    var last: uint64
    var csn: array<uint64>
    var found: array<uint64>
    var packets: array<Option<Packet>>
    var restoreQueue: seq<Vector>

    ghost predicate Valid()
      reads this, found
    {
      && ValidConfig(c) && c.data + 1 < TWO64
      && size == c.lines * c.total
      && csn.Length == found.Length == c.lines && csn != found
      && packets.Length == size
      && forall k :: 0 <= k < c.lines ==> found[k] <= c.data
    }

    ghost function View(): Assembler.Table
      reads this, csn, found, packets
      requires Valid()
    {
      Assembler.Table(RowsOf(c, found[..], csn[..], packets[..]), last)
    }

    constructor (config: Config)
      requires ValidConfig(config) && config.lines * config.total < TWO64 && config.data + 1 < TWO64
      ensures Valid() && c == config && View() == EmptyTable(config) && restoreQueue == []
      ensures fresh(csn) && fresh(found) && fresh(packets)
    {
      c := config;
      size := config.lines * config.total;
      last := 0;
      csn := new uint64[config.lines](_ => 0);
      found := new uint64[config.lines](_ => 0);
      packets := new Option<Packet>[config.lines * config.total](_ => None);
      restoreQueue := [];
      new;
      EmptyFlat(c, found[..], csn[..], packets[..]);
    }

    /** Empties the slots from start up to end, one by one. */
    method Clear(start: nat, end: nat)
      requires start <= end <= packets.Length
      modifies packets
      ensures packets[..] == Cleared(old(packets[..]), start, end)
    {
      for at := start to end
        invariant packets[..] == Cleared(old(packets[..]), start, at)
      {
        packets[at] := None;
      }
    }

    /** One arrival, as the step of the line table. */
    method Assemble(p: Packet)
      requires Valid() && (Ignored(c, View(), p) || InStep(c, p.csn, p.psn))
      modifies this, csn, found, packets
      ensures Valid() && csn == old(csn) && found == old(found) && packets == old(packets)
      ensures View() == Step(c, old(View()), p).0
      ensures restoreQueue == old(restoreQueue) + Step(c, old(View()), p).1
    {
      if p.psn > c.total || p.csn == 0 || p.csn <= last {
        return;
      }
      var atPacket, atChunk, chunkStart, chunkEnd := Locate(p);
      if found[atChunk] != 0 && csn[atChunk] == p.csn {
        Extend(p, atPacket, atChunk, chunkStart, chunkEnd);
      } else if found[atChunk] == 0 {
        Create(p, atPacket, atChunk);
      } else {
        Evict(p, atPacket, atChunk, chunkStart, chunkEnd);
      }
    }

    /** Where a packet and its chunk are in the flat arrays. */
    method Locate(p: Packet) returns (atPacket: uint64, atChunk: uint64, chunkStart: uint64, chunkEnd: uint64)
      requires Valid() && p.psn <= c.total && InStep(c, p.csn, p.psn)
      ensures atChunk == p.csn % c.lines
      ensures atPacket < size && atPacket == (p.csn * c.total + p.psn) % size
      ensures chunkStart == atChunk * c.total && chunkEnd == chunkStart + c.total <= size
    {
      MulMono(1, c.lines, c.total);
      Indices(c, size, p.csn, p.psn);
      hide Wrap64;
      RowInside(c, p.csn % c.lines);
      hide InStep, KeepsRem, ValidConfig;
      atPacket := Wrap64(Wrap64(p.csn * c.total) + p.psn) % size;
      atChunk := p.csn % c.lines;
      chunkStart := Wrap64(p.csn * c.total) % size;
      chunkEnd := Wrap64(Wrap64(p.csn + 1) * c.total) % size;
      if chunkEnd == 0 {
        chunkEnd := size;
      }
    }

    /** A packet of another chunk than the one that owns the line: that one is given up. */
    method Evict(p: Packet, atPacket: nat, atChunk: nat, chunkStart: nat, chunkEnd: nat)
      requires Valid() && p.psn <= c.total && atChunk == p.csn % c.lines
      requires atPacket < size && atPacket == (p.csn * c.total + p.psn) % size
      requires chunkStart == atChunk * c.total && chunkEnd == chunkStart + c.total <= size
      modifies this`last, csn, found, packets
      ensures Valid()
      ensures var t := old(View());
        View() == Assembler.Table(
          Opened(c, t.rows[atChunk := t.rows[atChunk].(slots := NoSlots(c.total))], p), t.rows[atChunk].csn)
    {
      last := csn[atChunk];
      ClearFlat(c, found[..], csn[..], packets[..], atChunk);
      Clear(chunkStart, chunkEnd);
      Create(p, atPacket, atChunk);
    }

    method Extend(p: Packet, atPacket: nat, atChunk: nat, chunkStart: nat, chunkEnd: nat)
      requires Valid() && p.psn <= c.total && atChunk == p.csn % c.lines
      requires atPacket < size && atPacket == (p.csn * c.total + p.psn) % size
      requires chunkStart == atChunk * c.total && chunkEnd == chunkStart + c.total <= size
      requires csn[atChunk] == p.csn
      modifies this, csn, found, packets
      ensures Valid() && csn == old(csn) && found == old(found) && packets == old(packets)
      ensures View() == Extended(c, old(View()), p).0
      ensures restoreQueue == old(restoreQueue) + Extended(c, old(View()), p).1
    {
      ExtendedFlat(c, found[..], csn[..], packets[..], last, p);
      hide Extended, RowsOf;
      packets[atPacket] := Some(p);
      found[atChunk] := found[atChunk] + 1;
      if found[atChunk] >= c.data {
        var data := packets[chunkStart..chunkEnd];
        restoreQueue := restoreQueue + [data];
        last := p.csn;
        Clear(chunkStart, chunkEnd);
        found[atChunk] := 0;
        csn[atChunk] := 0;
      }
    }

    method Create(p: Packet, atPacket: nat, atChunk: nat)
      requires Valid() && p.psn <= c.total && atChunk == p.csn % c.lines
      requires atPacket < size && atPacket == (p.csn * c.total + p.psn) % size
      modifies csn, found, packets
      ensures Valid() && View() == Assembler.Table(Opened(c, old(View()).rows, p), last)
    {
      OpenedFlat(c, found[..], csn[..], packets[..], p);
      packets[atPacket] := Some(p);
      csn[atChunk] := p.csn;
      found[atChunk] := 1;
    }
  }
}
