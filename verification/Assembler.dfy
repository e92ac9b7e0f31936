/** The line table of Decoder.assembly (src/codec/decoder.go:222-308), row by row.
    The flat arrays of the source and their index arithmetic are in AssemblerTable.dfy. */
module Assembler {
  import opened Lists
  import opened Packets
  import Arith

  /** data and total shards per chunk; lines rows in the table. */
  datatype Config = Config(data: nat, total: nat, lines: nat)

  ghost predicate ValidConfig(c: Config) {
    1 <= c.data <= c.total && 2 <= c.total && 1 <= c.lines
  }

  type Vector = seq<Option<Packet>>

  datatype Row = Row(found: nat, csn: nat, slots: Vector)
  datatype Table = Table(rows: seq<Row>, last: nat)

  function NoSlots(n: nat): (v: Vector)
    ensures |v| == n && forall i :: 0 <= i < n ==> v[i] == None
  {
    seq(n, _ => None)
  }

  function EmptyRow(c: Config): Row { Row(0, 0, NoSlots(c.total)) }

  function EmptyTable(c: Config): Table
  {
    Table(seq(c.lines, _ => EmptyRow(c)), 0)
  }

  ghost predicate Shaped(c: Config, rows: seq<Row>) {
    |rows| == c.lines && forall k :: 0 <= k < c.lines ==> |rows[k].slots| == c.total
  }

  /** A packet goes to the slot of its psn in the row of its csn; psn == total, which the
      source lets through, is the first slot of the row after. */
  function Store(c: Config, rows: seq<Row>, p: Packet): (r: seq<Row>)
    requires ValidConfig(c) && Shaped(c, rows) && p.psn <= c.total
    ensures Shaped(c, r)
  {
    var k := (if p.psn == c.total then p.csn + 1 else p.csn) % c.lines;
    var s := if p.psn == c.total then 0 else p.psn;
    rows[k := rows[k].(slots := rows[k].slots[s := Some(p)])]
  }

  ghost predicate Ignored(c: Config, t: Table, p: Packet) {
    p.psn > c.total || p.csn == 0 || p.csn <= t.last
  }

  /** A packet that opens a chunk in its line. */
  function Opened(c: Config, rows: seq<Row>, p: Packet): (r: seq<Row>)
    requires ValidConfig(c) && Shaped(c, rows) && p.psn <= c.total
    ensures Shaped(c, r)
  {
    var k := p.csn % c.lines;
    var stored := Store(c, rows, p);
    stored[k := stored[k].(found := 1, csn := p.csn)]
  }

  /** A packet of the chunk that owns its line: with data arrivals the line is pushed and emptied. */
  function Extended(c: Config, t: Table, p: Packet): (r: (Table, seq<Vector>))
    requires ValidConfig(c) && Shaped(c, t.rows) && p.psn <= c.total
    ensures Shaped(c, r.0.rows) && |r.1| <= 1
  {
    var k := p.csn % c.lines;
    var found := t.rows[k].found + 1;
    var stored := Store(c, t.rows, p);
    if found >= c.data then (Table(stored[k := EmptyRow(c)], p.csn), [stored[k].slots])
    else (Table(stored[k := stored[k].(found := found)], t.last), [])
  }

  /** One arrival: the new table and the vector pushed to the restorer, if any. An occupied
      line of another chunk is evicted, and last becomes the evicted chunk's number. */
  function Step(c: Config, t: Table, p: Packet): (r: (Table, seq<Vector>))
    requires ValidConfig(c) && Shaped(c, t.rows)
    ensures Shaped(c, r.0.rows) && |r.1| <= 1
  {
    if p.psn > c.total || p.csn == 0 || p.csn <= t.last then (t, [])
    else
      var k := p.csn % c.lines;
      var row := t.rows[k];
      if row.found != 0 && row.csn == p.csn then Extended(c, t, p)
      else if row.found == 0 then (Table(Opened(c, t.rows, p), t.last), [])
      else (Table(Opened(c, t.rows[k := row.(slots := NoSlots(c.total))], p), row.csn), [])
  }

  function Run(c: Config, h: seq<Packet>): (r: (Table, seq<Vector>))
    requires ValidConfig(c)
    ensures Shaped(c, r.0.rows)
  {
    if h == [] then (EmptyTable(c), [])
    else
      var (t, out) := Run(c, Front(h));
      var (t', more) := Step(c, t, Last(h));
      (t', out + more)
  }

  lemma RunSnoc(c: Config, h: seq<Packet>, p: Packet)
    requires ValidConfig(c)
    ensures var s := Step(c, Run(c, h).0, p);
      Run(c, h + [p]) == (s.0, Run(c, h).1 + s.1)
  {
    assert Front(h + [p]) == h;
  }

  // ---- What one arrival does, case by case ----

  /** Exactly the ignored packets leave no trace. */
  lemma IgnoredExact(c: Config, t: Table, p: Packet)
    requires ValidConfig(c) && Shaped(c, t.rows)
    ensures Step(c, t, p) == (t, []) <==> Ignored(c, t, p)
  {
    var k := p.csn % c.lines;
    if !Ignored(c, t, p) && Step(c, t, p).1 == [] {
      assert Step(c, t, p).0.rows[k].found != t.rows[k].found || Step(c, t, p).0.rows[k].csn != t.rows[k].csn;
    }
  }

  /** The packet's place in its own line; a packet numbered total is in it only if there is no other line. */
  ghost predicate Own(c: Config, p: Packet, s: nat) {
    p.psn == s < c.total || (p.psn == c.total && c.lines == 1 && s == 0)
  }

  /** Every packet that is not ignored is in the line of its chunk afterwards, at its number, or in the
      vector pushed; no other line changes, and no other vector is pushed. */
  lemma PacketPlaced(c: Config, t: Table, p: Packet, s: nat)
    requires ValidConfig(c) && Shaped(c, t.rows) && !Ignored(c, t, p) && Own(c, p, s)
    ensures var k := p.csn % c.lines;
      var (t', out) := Step(c, t, p);
      && (forall j :: 0 <= j < c.lines && j != k ==> t'.rows[j] == t.rows[j])
      && (out == [] ==> t'.rows[k].csn == p.csn && t'.rows[k].found >= 1 && t'.rows[k].slots[s] == Some(p))
      && (out != [] ==> |out| == 1 && |out[0]| == c.total && out[0][s] == Some(p))
  {
  }

  /** A line without a chunk is opened: the packet joins what is in it, which is nothing in a pure table. */
  lemma LineOpened(c: Config, t: Table, p: Packet, s: nat)
    requires ValidConfig(c) && Shaped(c, t.rows) && !Ignored(c, t, p) && Own(c, p, s)
    requires t.rows[p.csn % c.lines].found == 0
    ensures var k := p.csn % c.lines;
      var (t', out) := Step(c, t, p);
      && out == [] && t'.last == t.last && t'.rows[k].found == 1
      && forall i :: 0 <= i < c.total && i != s ==> t'.rows[k].slots[i] == t.rows[k].slots[i]
  {
  }

  /** A line of the packet's chunk counts it, and is pushed whole and emptied when it has data arrivals. */
  lemma LineExtended(c: Config, t: Table, p: Packet, s: nat)
    requires ValidConfig(c) && Shaped(c, t.rows) && !Ignored(c, t, p) && Own(c, p, s)
    requires t.rows[p.csn % c.lines].found != 0 && t.rows[p.csn % c.lines].csn == p.csn
    ensures var k := p.csn % c.lines;
      var (row, t', out) := (t.rows[k], Step(c, t, p).0, Step(c, t, p).1);
      && (out != [] <==> row.found + 1 >= c.data)
      && (out == [] ==> t'.last == t.last && t'.rows[k].found == row.found + 1)
      && (out == [] ==> forall i :: 0 <= i < c.total && i != s ==> t'.rows[k].slots[i] == row.slots[i])
      && (out != [] ==> t'.last == p.csn && t'.rows[k] == Row(0, 0, NoSlots(c.total)))
      && (out != [] ==> forall i :: 0 <= i < c.total && i != s ==> out[0][i] == row.slots[i])
  {
  }

  /** A line of another chunk, higher or lower, is taken over: it holds the packet alone, and last is the
      number of the chunk given up. */
  lemma LineTakenOver(c: Config, t: Table, p: Packet, s: nat)
    requires ValidConfig(c) && Shaped(c, t.rows) && !Ignored(c, t, p) && Own(c, p, s)
    requires t.rows[p.csn % c.lines].found != 0 && t.rows[p.csn % c.lines].csn != p.csn
    ensures var k := p.csn % c.lines;
      var (t', out) := Step(c, t, p);
      && out == [] && t'.last == t.rows[k].csn && t'.rows[k].found == 1
      && forall i :: 0 <= i < c.total && i != s ==> t'.rows[k].slots[i] == None
  {
  }

  /** A packet numbered total goes to the first slot of the next line, counts for its own chunk all the
      same, and is missing from the vector its arrival may push. */
  lemma StrayPlaced(c: Config, t: Table, p: Packet)
    requires ValidConfig(c) && Shaped(c, t.rows) && !Ignored(c, t, p) && p.psn == c.total && c.lines >= 2
    ensures var (k, n) := (p.csn % c.lines, (p.csn + 1) % c.lines);
      var (row, t', out) := (t.rows[k], Step(c, t, p).0, Step(c, t, p).1);
      && k != n && t'.rows[n] == t.rows[n].(slots := t.rows[n].slots[0 := Some(p)])
      && (forall j :: 0 <= j < c.lines && j != k && j != n ==> t'.rows[j] == t.rows[j])
      && (row.found == 0 ==> out == [] && t'.last == t.last && t'.rows[k] == row.(found := 1, csn := p.csn))
      && (row.found != 0 && row.csn != p.csn ==>
            out == [] && t'.last == row.csn && t'.rows[k] == Row(1, p.csn, NoSlots(c.total)))
      && (row.found != 0 && row.csn == p.csn ==>
            if row.found + 1 >= c.data then out == [row.slots] && t'.last == p.csn && t'.rows[k] == EmptyRow(c)
            else out == [] && t'.last == t.last && t'.rows[k] == row.(found := row.found + 1))
  {
    Arith.NextRem(p.csn, c.lines);
  }

  // ---- Line purity ----

  ghost predicate PureVector(v: Vector, csn: nat) {
    forall s :: 0 <= s < |v| && v[s].Some? ==> v[s].value.csn == csn && v[s].value.psn == s
  }

  ghost predicate PureRow(c: Config, row: Row, k: nat)
    requires ValidConfig(c)
  {
    && |row.slots| == c.total
    && (row.found == 0 <==> row.csn == 0)
    && (row.found == 0 <==> CountSome(row.slots) == 0)
    && (row.csn != 0 ==> row.csn % c.lines == k)
    && PureVector(row.slots, row.csn)
    && CountSome(row.slots) <= row.found <= Max(1, c.data - 1)
  }

  ghost predicate Pure(c: Config, t: Table)
    requires ValidConfig(c)
  {
    |t.rows| == c.lines && forall k :: 0 <= k < c.lines ==> PureRow(c, t.rows[k], k)
  }

  /** A step keeps every line pure and pushes a pure vector exactly when the packet is ignored
      or its psn is below total: the guard in the source admits total itself. */
  lemma PurityExact(c: Config, t: Table, p: Packet)
    requires ValidConfig(c) && Pure(c, t)
    ensures var (t', out) := Step(c, t, p);
      Pure(c, t') && (forall v :: v in out ==> PureVector(v, p.csn))
      <==> Ignored(c, t, p) || p.psn < c.total
  {
    if !Ignored(c, t, p) {
      if p.psn < c.total {
        PurityKept(c, t, p);
      } else {
        StraySlot(c, t, p);
      }
    }
  }

  lemma PurityKept(c: Config, t: Table, p: Packet)
    requires ValidConfig(c) && Pure(c, t) && p.psn < c.total
    ensures var (t', out) := Step(c, t, p);
      Pure(c, t') && (forall v :: v in out ==> PureVector(v, p.csn))
  {
    var k := p.csn % c.lines;
    var row := t.rows[k];
    CountSomeUpdate(row.slots, p.psn, Some(p));
    CountSomeNone(NoSlots(c.total));
    CountSomeUpdate(NoSlots(c.total), p.psn, Some(p));
    CountSomeNone(row.slots);
    hide CountSome;
  }

  lemma StraySlot(c: Config, t: Table, p: Packet)
    requires ValidConfig(c) && Pure(c, t) && p.psn == c.total && !Ignored(c, t, p)
    ensures var (t', out) := Step(c, t, p);
      !Pure(c, t') || exists v :: v in out && !PureVector(v, p.csn)
  {
    var (t', out) := Step(c, t, p);
    var k := p.csn % c.lines;
    var next := (p.csn + 1) % c.lines;
    if out != [] && next == k {
      assert out[0] in out && out[0][0] == Some(p);
    } else {
      assert t'.rows[next].slots[0] == Some(p);
      assert !PureRow(c, t'.rows[next], next);
    }
  }

  ghost predicate InBounds(c: Config, h: seq<Packet>) {
    forall i :: 0 <= i < |h| ==> h[i].psn < c.total
  }

  lemma EmptyPure(c: Config)
    requires ValidConfig(c)
    ensures Pure(c, EmptyTable(c))
  {
    CountSomeNone(NoSlots(c.total));
  }

  /** Over every run of in-bounds packets the lines stay pure, so a pushed vector never mixes chunks. */
  lemma {:induction false} RunPure(c: Config, h: seq<Packet>)
    requires ValidConfig(c) && InBounds(c, h)
    ensures Pure(c, Run(c, h).0)
    ensures forall v :: v in Run(c, h).1 ==> exists csn :: PureVector(v, csn)
  {
    if h == [] {
      EmptyPure(c);
    } else {
      RunPure(c, Front(h));
      PurityKept(c, Run(c, Front(h)).0, Last(h));
    }
  }
}
