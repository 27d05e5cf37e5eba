/** Depth-bounded search with cycle pruning on any graph: what the group and relation searches share. */
module BoundedSearch {

  /** A graph and the nodes a search looks for. */
  datatype Graph<!N> = Graph(next: N -> set<N>, goal: N -> bool)

  /** Some walk of at most `fuel` steps from n ends in a goal. */
  ghost predicate Within<N>(g: Graph<N>, n: N, fuel: int)
    decreases if fuel < 0 then 0 else fuel + 1
  {
    fuel >= 0 && (g.goal(n) || exists m :: m in g.next(n) && Within(g, m, fuel - 1))
  }

  /** The search that gives up on a node it has already seen on its own path. */
  ghost predicate Pruned<N>(g: Graph<N>, n: N, fuel: int, seen: set<N>)
    decreases if fuel < 0 then 0 else fuel + 1
  {
    fuel >= 0 && n !in seen && (g.goal(n) || exists m :: m in g.next(n) && Pruned(g, m, fuel - 1, seen + {n}))
  }

  // ----- Walks -----

  ghost predicate IsWalk<N>(g: Graph<N>, w: seq<N>) {
    |w| > 0 && forall i :: 0 <= i < |w| - 1 ==> w[i + 1] in g.next(w[i])
  }

  ghost predicate Simple<N>(w: seq<N>) {
    forall i, j :: 0 <= i < j < |w| ==> w[i] != w[j]
  }

  ghost predicate FromTo<N>(g: Graph<N>, w: seq<N>, n: N) {
    IsWalk(g, w) && w[0] == n && g.goal(w[|w| - 1])
  }

  lemma {:induction false} WalkOfWithin<N>(g: Graph<N>, n: N, fuel: int) returns (w: seq<N>)
    requires Within(g, n, fuel)
    ensures FromTo(g, w, n) && |w| <= fuel + 1
    decreases fuel
  {
    if g.goal(n) {
      w := [n];
    } else {
      var m :| m in g.next(n) && Within(g, m, fuel - 1);
      var rest := WalkOfWithin(g, m, fuel - 1);
      w := [n] + rest;
    }
  }

  lemma {:induction false} WithinOfWalk<N>(g: Graph<N>, w: seq<N>, n: N, fuel: int)
    requires FromTo(g, w, n) && |w| <= fuel + 1
    ensures Within(g, n, fuel)
    decreases |w|
  {
    if |w| == 1 {
    } else {
      WithinOfWalk(g, w[1..], w[1], fuel - 1);
    }
  }

  /** Cutting every loop out of a walk leaves a simple walk, no longer than it was. */
  lemma {:induction false} CutLoops<N>(g: Graph<N>, w: seq<N>, n: N) returns (s: seq<N>)
    requires FromTo(g, w, n)
    ensures FromTo(g, s, n) && Simple(s) && |s| <= |w|
    decreases |w|
  {
    if i, j :| 0 <= i < j < |w| && w[i] == w[j] {
      var cut := w[..i] + w[j..];
      s := CutLoops(g, cut, n);
    } else {
      s := w;
    }
  }

  lemma {:induction false} PrunedOfSimple<N>(g: Graph<N>, w: seq<N>, n: N, fuel: int, seen: set<N>)
    requires FromTo(g, w, n) && Simple(w) && |w| <= fuel + 1
    requires forall i :: 0 <= i < |w| ==> w[i] !in seen
    ensures Pruned(g, n, fuel, seen)
    decreases |w|
  {
    if |w| == 1 {
    } else {
      PrunedOfSimple(g, w[1..], w[1], fuel - 1, seen + {n});
    }
  }

  lemma {:induction false} WithinOfPruned<N>(g: Graph<N>, n: N, fuel: int, seen: set<N>)
    requires Pruned(g, n, fuel, seen)
    ensures Within(g, n, fuel)
    decreases fuel
  {
    if !g.goal(n) {
      var m :| m in g.next(n) && Pruned(g, m, fuel - 1, seen + {n});
      WithinOfPruned(g, m, fuel - 1, seen + {n});
    }
  }

  /** Cycle pruning never loses an answer. */
  lemma PruningIsComplete<N>(g: Graph<N>, n: N, fuel: int)
    ensures Pruned(g, n, fuel, {}) <==> Within(g, n, fuel)
  {
    if Within(g, n, fuel) {
      var w := WalkOfWithin(g, n, fuel);
      var s := CutLoops(g, w, n);
      PrunedOfSimple(g, s, n, fuel, {});
    }
    if Pruned(g, n, fuel, {}) {
      WithinOfPruned(g, n, fuel, {});
    }
  }

  // ----- Unbounded reachability -----

  ghost predicate Reachable<N>(g: Graph<N>, n: N) {
    exists fuel: nat :: Within(g, n, fuel)
  }

  ghost predicate Closed<N>(g: Graph<N>, keys: set<N>) {
    forall n :: n in keys ==> g.next(n) <= keys
  }

  lemma {:induction false} WalkStaysIn<N>(g: Graph<N>, w: seq<N>, keys: set<N>, i: nat)
    requires IsWalk(g, w) && Closed(g, keys) && w[0] in keys && i < |w|
    ensures w[i] in keys
  {
    if i > 0 {
      WalkStaysIn(g, w, keys, i - 1);
      assert w[i - 1 + 1] in g.next(w[i - 1]);
    }
  }

  lemma {:induction false} SimpleFits<N>(w: seq<N>, keys: set<N>)
    requires Simple(w) && forall i :: 0 <= i < |w| ==> w[i] in keys
    ensures |w| <= |keys|
    decreases |w|
  {
    if w == [] {
    } else {
      SimpleFits(w[1..], keys - {w[0]});
    }
  }

  /** Once the depth covers the reachable nodes, the bounded search is reachability. */
  lemma BoundSuffices<N>(g: Graph<N>, n: N, fuel: int, keys: set<N>)
    requires Closed(g, keys) && n in keys && |keys| <= fuel + 1
    ensures Within(g, n, fuel) <==> Reachable(g, n)
  {
    if f: nat :| Within(g, n, f) {
      var w := WalkOfWithin(g, n, f);
      var s := CutLoops(g, w, n);
      forall i | 0 <= i < |s|
        ensures s[i] in keys
      {
        WalkStaysIn(g, s, keys, i);
      }
      SimpleFits(s, keys);
      WithinOfWalk(g, s, n, fuel);
    }
  }

  lemma {:induction false} WithinMonotone<N>(g: Graph<N>, h: Graph<N>, n: N, fuel: int, more: int)
    requires forall m :: g.next(m) <= h.next(m) && (g.goal(m) ==> h.goal(m))
    requires Within(g, n, fuel) && fuel <= more
    ensures Within(h, n, more)
    decreases fuel
  {
    if !g.goal(n) {
      var m :| m in g.next(n) && Within(g, m, fuel - 1);
      WithinMonotone(g, h, m, fuel - 1, more - 1);
    }
  }

  /** A relation is closed under the rules of the graph. */
  ghost predicate ClosedUnderRules<N(!new)>(g: Graph<N>, p: N -> bool) {
    forall n :: (g.goal(n) ==> p(n)) && forall m :: m in g.next(n) && p(m) ==> p(n)
  }

  /** Reachability is the least relation closed under the rules. */
  lemma ReachableIsLeast<N(!new)>(g: Graph<N>, n: N)
    ensures g.goal(n) ==> Reachable(g, n)
    ensures forall m :: m in g.next(n) && Reachable(g, m) ==> Reachable(g, n)
    ensures Reachable(g, n) ==> forall p :: ClosedUnderRules(g, p) ==> p(n)
  {
    if g.goal(n) {
      assert Within(g, n, 0);
    }
    forall m | m in g.next(n) && Reachable(g, m)
      ensures Reachable(g, n)
    {
      var f: nat :| Within(g, m, f);
      assert Within(g, m, f + 1 - 1);
      assert Within(g, n, f + 1);
    }
    if f: nat :| Within(g, n, f) {
      forall p | ClosedUnderRules(g, p)
        ensures p(n)
      {
        WithinInClosed(g, n, f, p);
      }
    }
  }

  lemma {:induction false} WithinInClosed<N(!new)>(g: Graph<N>, n: N, fuel: int, p: N -> bool)
    requires ClosedUnderRules(g, p) && Within(g, n, fuel)
    ensures p(n)
    decreases fuel
  {
    if !g.goal(n) {
      var m :| m in g.next(n) && Within(g, m, fuel - 1);
      WithinInClosed(g, m, fuel - 1, p);
    }
  }
}
