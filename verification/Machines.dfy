/** Stages as machines that turn a history of inputs into a history of outputs. */
module Machines {
  import opened Lists

  type Step<!S, !I, !O> = (S, I) -> (S, seq<O>)

  function Run<S, I, O>(f: Step<S, I, O>, s: S, h: seq<I>): (S, seq<O>)
  {
    if h == [] then (s, [])
    else
      var (s1, out) := Run(f, s, Front(h));
      var (s2, more) := f(s1, Last(h));
      (s2, out + more)
  }

  lemma RunNothing<S, I, O>(f: Step<S, I, O>, s: S)
    ensures Run(f, s, []) == (s, [])
  {
  }

  lemma RunSnoc<S, I, O>(f: Step<S, I, O>, s: S, h: seq<I>, x: I)
    ensures var r := Run(f, s, h);
      Run(f, s, h + [x]) == (f(r.0, x).0, r.1 + f(r.0, x).1)
  {
    assert Front(h + [x]) == h;
  }

  /** The last step of a run whose earlier part and last step are known. */
  lemma RunIs<S, I, O>(f: Step<S, I, O>, s: S, g: seq<I>, x: I, s1: S, out: seq<O>, s2: S, more: seq<O>)
    requires Run(f, s, g) == (s1, out) && f(s1, x) == (s2, more)
    ensures Run(f, s, g + [x]) == (s2, out + more)
  {
    RunSnoc(f, s, g, x);
  }

  /** Running g and then h is running g + h. */
  lemma {:induction false} RunAppend<S, I, O>(f: Step<S, I, O>, s: S, g: seq<I>, h: seq<I>)
    ensures var r := Run(f, s, g);
      var q := Run(f, r.0, h);
      Run(f, s, g + h) == (q.0, r.1 + q.1)
  {
    var r := Run(f, s, g);
    if h == [] {
      assert g + h == g;
      assert r.1 + [] == r.1;
    } else {
      RunAppend(f, s, g, Front(h));
      assert Front(g + h) == g + Front(h);
      var q := Run(f, r.0, Front(h));
      assert (r.1 + q.1) + f(q.0, Last(h)).1 == r.1 + (q.1 + f(q.0, Last(h)).1);
    }
  }

  /** Outputs only grow. */
  lemma RunPrefix<S, I, O>(f: Step<S, I, O>, s: S, g: seq<I>, h: seq<I>)
    requires g <= h
    ensures Run(f, s, g).1 <= Run(f, s, h).1
  {
    RunAppend(f, s, g, h[|g|..]);
    assert h == g + h[|g|..];
  }
}
