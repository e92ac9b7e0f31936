/** Sequence vocabulary shared by the stages. Histories grow at the end, so every
    recursive function here peels off the last element. */
module Lists {

  datatype Option<+T> = None | Some(value: T)

  function Min(a: int, b: int): int { if a < b then a else b }

  function Max(a: int, b: int): int { if a < b then b else a }

  /** All but the last element. */
  function Front<T>(s: seq<T>): seq<T>
    requires s != []
  {
    s[..|s| - 1]
  }

  function Last<T>(s: seq<T>): T
    requires s != []
  {
    s[|s| - 1]
  }

  /** 1, 2, ..., n. */
  function UpTo(n: nat): (s: seq<nat>)
    ensures |s| == n && forall i :: 0 <= i < n ==> s[i] == i + 1
  {
    seq(n, i => i + 1)
  }

  function Flatten<T>(ss: seq<seq<T>>): seq<T>
  {
    if ss == [] then [] else Flatten(Front(ss)) + Last(ss)
  }

  lemma Associative<T>(a: seq<T>, b: seq<T>, c: seq<T>)
    ensures (a + b) + c == a + (b + c)
  {
  }

  lemma {:induction false} FlattenAppend<T>(a: seq<seq<T>>, b: seq<seq<T>>)
    ensures Flatten(a + b) == Flatten(a) + Flatten(b)
  {
    if b == [] {
      assert a + b == a;
    } else {
      assert Front(a + b) == a + Front(b) && Last(a + b) == Last(b);
      FlattenAppend(a, Front(b));
      Associative(Flatten(a), Flatten(Front(b)), Last(b));
    }
  }

  /** A prefix of a list of blocks flattens to a prefix of the bytes. */
  lemma {:induction false} FlattenPrefix<T>(ss: seq<seq<T>>, n: nat)
    requires n <= |ss|
    ensures Flatten(ss[..n]) <= Flatten(ss)
  {
    FlattenAppend(ss[..n], ss[n..]);
    assert ss == ss[..n] + ss[n..];
  }

  /** A prefix of a prefix is a prefix. */
  lemma PrefixTrans<T>(a: seq<T>, b: seq<T>, c: seq<T>)
    requires a <= b && b <= c
    ensures a <= c
  {
  }

  /** How many places are taken. */
  function CountSome<T>(v: seq<Option<T>>): (n: nat)
    ensures n <= |v|
  {
    if v == [] then 0 else CountSome(Front(v)) + if Last(v).Some? then 1 else 0
  }

  lemma {:induction false} CountSomeUpdate<T>(v: seq<Option<T>>, i: nat, x: Option<T>)
    requires i < |v|
    ensures CountSome(v[i := x]) ==
      CountSome(v) - (if v[i].Some? then 1 else 0) + (if x.Some? then 1 else 0)
  {
    if i < |v| - 1 {
      assert Front(v[i := x]) == Front(v)[i := x];
      CountSomeUpdate(Front(v), i, x);
    } else {
      assert Front(v[i := x]) == Front(v);
    }
  }

  lemma {:induction false} CountSomeNone<T>(v: seq<Option<T>>)
    ensures CountSome(v) == 0 <==> forall i :: 0 <= i < |v| ==> v[i].None?
  {
    if v != [] {
      CountSomeNone(Front(v));
      assert v == Front(v) + [Last(v)];
    }
  }

  lemma {:induction false} CountSomeAll<T>(v: seq<Option<T>>)
    ensures CountSome(v) == |v| <==> forall i :: 0 <= i < |v| ==> v[i].Some?
  {
    if v != [] {
      CountSomeAll(Front(v));
      assert v == Front(v) + [Last(v)];
    }
  }
}
