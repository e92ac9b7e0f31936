/** The Reed-Solomon library as the codec sees it: a parameter with three laws. XOR parity is
    one code that has them, so every statement about a lawful code has an instance. */
module ErasureCode {
  import opened Lists
  import opened Bytes

  type View = seq<Option<Shard>>

  /** encode fills the parity shards of a full set of total shards; reconstruct returns the
      data shards of a codeword of which some shards are missing, or None for an error. */
  datatype Code = Code(data: nat, total: nat,
                       encode: seq<Shard> -> seq<Shard>,
                       reconstruct: View -> Option<seq<Shard>>)

  ghost predicate ViewOf(v: View, w: seq<Shard>) {
    |v| == |w| && forall i :: 0 <= i < |v| && v[i].Some? ==> v[i].value == w[i]
  }

  ghost predicate KeepsData(code: Code, s: seq<Shard>)
    requires |s| == code.total >= code.data
  {
    |code.encode(s)| == code.total && code.encode(s)[..code.data] == s[..code.data]
  }

  ghost predicate Rebuilds(code: Code, s: seq<Shard>, v: View)
    requires |s| == code.total >= code.data
  {
    ViewOf(v, code.encode(s)) && CountSome(v) >= code.data ==> code.reconstruct(v) == Some(s[..code.data])
  }

  ghost predicate NeedsData(code: Code, v: View) {
    |v| == code.total && CountSome(v) < code.data ==> code.reconstruct(v) == None
  }

  ghost predicate Lawful(code: Code) {
    && 1 <= code.data <= code.total && 2 <= code.total
    && (forall s: seq<Shard> :: |s| == code.total ==> KeepsData(code, s))
    && (forall s: seq<Shard>, v: View :: |s| == code.total ==> Rebuilds(code, s, v))
    && (forall v: View :: NeedsData(code, v))
  }

  // ---- XOR parity ----

  /** The exclusive or of the low bits. */
  function XorBit(a: nat, b: nat): nat { if a % 2 == b % 2 then 0 else 1 }

  function XorBits(a: nat, b: nat, n: nat): (r: nat)
    ensures r < Pow2(n)
  {
    if n == 0 then 0 else XorBit(a, b) + 2 * XorBits(a / 2, b / 2, n - 1)
  }

  function Pow2(n: nat): nat { if n == 0 then 1 else 2 * Pow2(n - 1) }

  lemma XorStep(a: nat, b: nat, n: nat)
    requires n > 0
    ensures XorBits(a, b, n) % 2 == XorBit(a, b)
    ensures XorBits(a, b, n) / 2 == XorBits(a / 2, b / 2, n - 1)
  {
  }

  lemma {:induction false} XorComm(a: nat, b: nat, n: nat)
    ensures XorBits(a, b, n) == XorBits(b, a, n)
  {
    if n > 0 { XorComm(a / 2, b / 2, n - 1); }
  }

  lemma {:induction false} XorUnit(a: nat, n: nat)
    requires a < Pow2(n)
    ensures XorBits(a, a, n) == 0 && XorBits(a, 0, n) == a
  {
    if n > 0 { XorUnit(a / 2, n - 1); }
  }

  lemma {:induction false} XorAssoc(a: nat, b: nat, c: nat, n: nat)
    ensures XorBits(XorBits(a, b, n), c, n) == XorBits(a, XorBits(b, c, n), n)
  {
    if n > 0 {
      var (x, y) := (XorBits(a, b, n), XorBits(b, c, n));
      XorStep(a, b, n); XorStep(b, c, n);
      XorAssoc(a / 2, b / 2, c / 2, n - 1);
      XorStep(x, c, n); XorStep(a, y, n);
      assert XorBit(x, c) == XorBit(a, y);
    }
  }

  lemma Pow2Eight()
    ensures Pow2(8) == 256
  {
    assert Pow2(4) == 16;
    assert Pow2(8) == 16 * Pow2(4);
  }

  function XorByte(a: byte, b: byte): byte
  {
    Pow2Eight();
    XorBits(a, b, 8)
  }

  function XorShard(s: Shard, t: Shard): Shard
  {
    seq(DATA_SIZE, i requires 0 <= i < DATA_SIZE => XorByte(s[i], t[i]))
  }

  function ZeroShard(): Shard { ZeroBytes(DATA_SIZE) }

  lemma XorShardLaws(s: Shard, t: Shard, u: Shard)
    ensures XorShard(s, t) == XorShard(t, s)
    ensures XorShard(XorShard(s, t), u) == XorShard(s, XorShard(t, u))
    ensures XorShard(s, s) == ZeroShard() && XorShard(s, ZeroShard()) == s
  {
    Pow2Eight();
    forall i | 0 <= i < DATA_SIZE
      ensures XorByte(s[i], t[i]) == XorByte(t[i], s[i])
      ensures XorByte(XorByte(s[i], t[i]), u[i]) == XorByte(s[i], XorByte(t[i], u[i]))
      ensures XorByte(s[i], s[i]) == 0 && XorByte(s[i], 0) == s[i]
    {
      XorComm(s[i], t[i], 8);
      XorAssoc(s[i], t[i], u[i], 8);
      XorUnit(s[i], 8);
    }
  }

  function XorAll(s: seq<Shard>): Shard
  {
    if s == [] then ZeroShard() else XorShard(XorAll(Front(s)), Last(s))
  }

  /** Zeroing one shard takes it out of the parity. */
  lemma {:induction false} XorAllWithout(s: seq<Shard>, m: nat)
    requires m < |s|
    ensures XorAll(s[m := ZeroShard()]) == XorShard(XorAll(s), s[m])
  {
    var z := s[m := ZeroShard()];
    var (a, l) := (XorAll(Front(s)), Last(s));
    if m == |s| - 1 {
      assert Front(z) == Front(s);
      XorShardLaws(a, l, l);
      XorShardLaws(l, l, l);
    } else {
      assert Front(z) == Front(s)[m := ZeroShard()];
      XorAllWithout(Front(s), m);
      XorShardLaws(a, s[m], l);
      XorShardLaws(s[m], l, l);
      XorShardLaws(a, l, s[m]);
    }
  }

  function Filled(v: View): (s: seq<Shard>)
    ensures |s| == |v|
  {
    seq(|v|, i requires 0 <= i < |v| => if v[i].Some? then v[i].value else ZeroShard())
  }

  function XorEncode(data: nat, s: seq<Shard>): seq<Shard>
  {
    if |s| == data + 1 then s[..data] + [XorAll(s[..data])] else s
  }

  function XorReconstruct(data: nat, v: View): Option<seq<Shard>>
  {
    if |v| != data + 1 || CountSome(v) < data then None
    else
      var f := Filled(v);
      Some(seq(data, i requires 0 <= i < data => if v[i].Some? then v[i].value else XorAll(f)))
  }

  function XorParity(data: nat): Code
  {
    Code(data, data + 1, s => XorEncode(data, s), v => XorReconstruct(data, v))
  }

  /** With one shard missing, all others are there. */
  lemma {:induction false} OneMissing(v: View, m: nat)
    requires m < |v| && v[m].None? && CountSome(v) >= |v| - 1
    ensures forall i :: 0 <= i < |v| && i != m ==> v[i].Some?
  {
    if m == |v| - 1 {
      CountSomeAll(Front(v));
      assert forall i :: 0 <= i < |v| - 1 ==> Front(v)[i].Some?;
    } else {
      CountSomeAll(Front(v));
      assert Front(v)[m].None?;
      OneMissing(Front(v), m);
      assert forall i :: 0 <= i < |v| - 1 ==> Front(v)[i] == v[i];
    }
  }

  lemma XorRebuilds(data: nat, s: seq<Shard>, v: View)
    requires data >= 1 && |s| == data + 1
    ensures Rebuilds(XorParity(data), s, v)
  {
    var w := XorEncode(data, s);
    if ViewOf(v, w) && CountSome(v) >= data {
      var r := XorReconstruct(data, v).value;
      var parity := XorAll(w[..data]);
      assert w[..data] == s[..data] && Front(w) == s[..data] && Last(w) == parity;
      XorShardLaws(parity, parity, parity);
      assert XorAll(w) == ZeroShard();
      forall i | 0 <= i < data ensures r[i] == s[i] {
        assert s[i] == w[i];
        if v[i].None? {
          OneMissing(v, i);
          assert Filled(v) == w[i := ZeroShard()];
          XorAllWithout(w, i);
          XorShardLaws(ZeroShard(), w[i], w[i]);
          XorShardLaws(w[i], w[i], w[i]);
        }
      }
      assert r == s[..data];
    }
  }

  /** The laws are not vacuous: XOR parity has them for every number of data shards. */
  lemma XorParityLawful(data: nat)
    requires data >= 1
    ensures Lawful(XorParity(data))
  {
    var code := XorParity(data);
    forall s: seq<Shard> | |s| == code.total ensures KeepsData(code, s) {
      assert code.encode(s) == XorEncode(data, s);
    }
    forall s: seq<Shard>, v: View | |s| == code.total ensures Rebuilds(code, s, v) {
      XorRebuilds(data, s, v);
    }
  }
}
