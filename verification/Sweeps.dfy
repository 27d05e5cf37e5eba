/** The same kind of step at each of a list of places, and how to undo it. */
module Sweeps {
  function Sweep<S, I>(step: (S, I) -> S, s: S, places: seq<I>): S
    decreases |places|
  {
    if places == [] then s else Sweep(step, step(s, places[0]), places[1..])
  }

  function SweepBack<S, I>(step: (S, I) -> S, s: S, places: seq<I>): S
    decreases |places|
  {
    if places == [] then s else step(SweepBack(step, s, places[1..]), places[0])
  }

  /** Undoing each step, last place first, undoes the sweep. */
  lemma {:induction false} SweepUndone<S(!new), I(!new)>(f: (S, I) -> S, g: (S, I) -> S, s: S, places: seq<I>)
    requires forall t, i :: g(f(t, i), i) == t
    ensures SweepBack(g, Sweep(f, s, places), places) == s
    decreases |places|
  {
    if places == [] {
    } else {
      SweepUndone(f, g, f(s, places[0]), places[1..]);
      assert g(f(s, places[0]), places[0]) == s;
    }
  }

  lemma {:induction false} SweepRedone<S(!new), I(!new)>(f: (S, I) -> S, g: (S, I) -> S, s: S, places: seq<I>)
    requires forall t, i :: f(g(t, i), i) == t
    ensures Sweep(f, SweepBack(g, s, places), places) == s
    decreases |places|
  {
    if places == [] {
    } else {
      var u := SweepBack(g, s, places[1..]);
      assert f(g(u, places[0]), places[0]) == u;
      SweepRedone(f, g, s, places[1..]);
    }
  }

  lemma SweepStep<S, I>(f: (S, I) -> S, s: S, places: seq<I>, i: nat)
    requires i < |places|
    ensures Sweep(f, s, places[i..]) == Sweep(f, f(s, places[i]), places[i + 1..])
  {
    assert places[i..][0] == places[i] && places[i..][1..] == places[i + 1..];
  }
}
