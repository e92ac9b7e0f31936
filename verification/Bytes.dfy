/** Machine integers and little-endian coding, as used by encoding/binary. */
module Bytes {
  import opened Lists
  import Arith

  type byte = b: int | 0 <= b < 256
  const TWO32: int := 0x1_0000_0000
  const TWO64: int := 0x1_0000_0000_0000_0000
  type uint32 = x: int | 0 <= x < TWO32
  type uint64 = x: int | 0 <= x < TWO64

  /** What a uint64 operation leaves of an exact result. */
  function Wrap64(x: int): uint64 { x % TWO64 }

  lemma Wrap64Id(x: int)
    requires 0 <= x < TWO64
    ensures Wrap64(x) == x
  {
  }

  const DATA_SIZE: nat := 1024

  /** One packet payload, which is also one Reed-Solomon shard. */
  type Shard = s: seq<byte> | |s| == DATA_SIZE ghost witness seq(DATA_SIZE, _ => 0)

  function ZeroBytes(n: nat): (s: seq<byte>)
    ensures |s| == n && forall i :: 0 <= i < n ==> s[i] == 0
  {
    seq(n, _ => 0)
  }

  function Pow256(n: nat): (r: nat)
    ensures r >= 1
  {
    if n == 0 then 1 else 256 * Pow256(n - 1)
  }

  lemma PowValues()
    ensures Pow256(4) == TWO32
    ensures Pow256(8) == TWO64
  {
    assert Pow256(2) == 65536;
    assert Pow256(4) == 65536 * Pow256(2);
    assert Pow256(6) == 65536 * Pow256(4);
    assert Pow256(8) == 65536 * Pow256(6);
  }

  function ToLE(v: nat, n: nat): (s: seq<byte>)
    ensures |s| == n
  {
    if n == 0 then [] else [v % 256] + ToLE(v / 256, n - 1)
  }

  function FromLE(s: seq<byte>): nat
  {
    if s == [] then 0 else s[0] + 256 * FromLE(s[1..])
  }

  lemma {:induction false} FromToLE(v: nat, n: nat)
    requires v < Pow256(n)
    ensures FromLE(ToLE(v, n)) == v
  {
    if n > 0 {
      FromToLE(v / 256, n - 1);
      assert ToLE(v, n)[1..] == ToLE(v / 256, n - 1);
    }
  }

  lemma {:induction false} ToFromLE(s: seq<byte>)
    ensures FromLE(s) < Pow256(|s|)
    ensures ToLE(FromLE(s), |s|) == s
  {
    if s != [] {
      ToFromLE(s[1..]);
      var v := FromLE(s);
      assert v % 256 == s[0] && v / 256 == FromLE(s[1..]);
      assert s == [s[0]] + s[1..];
    }
  }

  /** The bytes spell the number, low byte first: byte i is its i-th digit in base 256. */
  ghost predicate Spells(s: seq<byte>, v: nat) {
    v < Pow256(|s|) && forall i :: 0 <= i < |s| ==> s[i] == v / Pow256(i) % 256
  }

  lemma NextDigit(v: nat, i: nat)
    requires i >= 1
    ensures v / 256 / Pow256(i - 1) == v / Pow256(i)
  {
    var (d, m) := (Pow256(i - 1), v / 256);
    var (q, r) := (m / d, m % d);
    assert m == q * d + r;
    Digits(v, d, q, r);
  }

  lemma Digits(v: nat, d: nat, q: nat, r: nat)
    requires d >= 1 && v / 256 == q * d + r && r < d
    ensures v / (256 * d) == q
  {
    assert 256 * (q * d) == q * (256 * d);
    Arith.ModUnique(v, 256 * d, q, 256 * r + v % 256);
  }

  lemma {:induction false} ToLEAt(v: nat, n: nat, i: nat)
    requires i < n
    ensures ToLE(v, n)[i] == v / Pow256(i) % 256
  {
    if i > 0 {
      ToLEAt(v / 256, n - 1, i - 1);
      NextDigit(v, i);
    }
  }

  /** Little-endian coding, both ways, by digits. */
  lemma SpellsExact(s: seq<byte>, v: nat)
    requires v < Pow256(|s|)
    ensures Spells(s, v) <==> ToLE(v, |s|) == s
    ensures Spells(s, v) <==> FromLE(s) == v
  {
    forall i | 0 <= i < |s| ensures ToLE(v, |s|)[i] == v / Pow256(i) % 256 { ToLEAt(v, |s|, i); }
    FromToLE(v, |s|);
    ToFromLE(s);
  }

  /** binary.LittleEndian.PutUint32 and PutUint64: the n low bytes of v, low byte first. */
  method PutLE(b: array<byte>, at: nat, n: nat, v: nat)
    requires at + n <= b.Length
    modifies b
    ensures b[..] == old(b[..at]) + ToLE(v, n) + old(b[at + n..])
  {
    var rest := v;
    var i := 0;
    while i < n
      invariant 0 <= i <= n
      invariant 0 <= rest
      invariant b[at..at + i] + ToLE(rest, n - i) == ToLE(v, n)
      invariant b[..at] == old(b[..at]) && b[at + n..] == old(b[at + n..])
    {
      ghost var done := b[at..at + i];
      b[at + i] := rest % 256;
      assert b[at..at + i + 1] == done + [rest % 256];
      assert done + ToLE(rest, n - i) == done + [rest % 256] + ToLE(rest / 256, n - i - 1);
      rest := rest / 256;
      i := i + 1;
    }
    assert b[..] == b[..at] + b[at..at + n] + b[at + n..];
  }

  /** Go's built-in copy into a buffer at an offset: as many bytes as fit. */
  method CopyInto(dst: array<byte>, at: nat, src: seq<byte>) returns (n: nat)
    requires at <= dst.Length
    modifies dst
    ensures n == Min(dst.Length - at, |src|)
    ensures dst[..] == old(dst[..at]) + src[..n] + old(dst[at + n..])
  {
    n := Min(dst.Length - at, |src|);
    forall i | 0 <= i < n {
      dst[at + i] := src[i];
    }
    assert dst[..] == dst[..at] + dst[at..at + n] + dst[at + n..];
  }
}
