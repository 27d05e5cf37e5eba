/** Zanzibar-style relationship checks (authlab/authz/rebac.py). */
module Rebac {
  import opened BoundedSearch
  import opened Text

  datatype Tuple = Tuple(object_: string, relation: string, user: string)

  /** A userset rewrite rule; Unknown is any other kind, which matches nobody. */
  datatype Userset =
    | This
    | Computed(relation: string)
    | Through(tupleset: string, relation: string)
    | Union(children: seq<Userset>)
    | Unknown

  /** One object's relation: a place in the relation graph. */
  type Key = (string, string)

  /** The state of a ReBAC engine. */
  datatype Store = Store(maxDepth: nat, namespaces: map<string, map<string, Userset>>, tuples: set<Tuple>)

  function RewriteFor(st: Store, object_: string, relation: string): Userset {
    var kind := Before(object_, ':');
    if kind in st.namespaces && relation in st.namespaces[kind] then st.namespaces[kind][relation] else This
  }

  function Direct(st: Store, object_: string, relation: string): set<string> {
    set t | t in st.tuples && t.object_ == object_ && t.relation == relation :: t.user
  }

  /** A wildcard grant such as user:* covers every user with its prefix. */
  predicate WildcardCovers(candidate: string, user: string) {
    EndsWith(candidate, ":*") && StartsWith(user, candidate[..|candidate| - 1])
  }

  predicate Covers(candidate: string, user: string) {
    candidate == user || WildcardCovers(candidate, user)
  }

  /** The userset a candidate names. */
  function SubKey(candidate: string): Key
    requires '#' in candidate
  {
    (Before(candidate, '#'), After(candidate, '#'))
  }

  /** check: `seen` holds the keys of the path so far. */
  predicate Check(st: Store, object_: string, relation: string, user: string, depth: nat, seen: set<(string, string, string)>)
    decreases if depth > st.maxDepth then 0 else st.maxDepth + 1 - depth, 1, This
  {
    depth <= st.maxDepth
    && (object_, relation, user) !in seen
    && CheckUserset(st, RewriteFor(st, object_, relation), object_, relation, user, depth, seen + {(object_, relation, user)})
  }

  /** _check_userset. */
  predicate CheckUserset(st: Store, rewrite: Userset, object_: string, relation: string, user: string, depth: nat,
                         seen: set<(string, string, string)>)
    requires depth <= st.maxDepth
    decreases st.maxDepth + 1 - depth, 0, rewrite
  {
    match rewrite
    case Union(children) =>
      exists child :: child in children && CheckUserset(st, child, object_, relation, user, depth, seen)
    case This =>
      exists candidate :: candidate in Direct(st, object_, relation) &&
        (candidate == user
         || ('#' in candidate && Check(st, SubKey(candidate).0, SubKey(candidate).1, user, depth + 1, seen))
         || WildcardCovers(candidate, user))
    case Computed(r) => Check(st, object_, r, user, depth + 1, seen)
    case Through(tupleset, r) =>
      exists parent :: parent in Direct(st, object_, tupleset) && Check(st, Before(parent, '#'), r, user, depth + 1, seen)
    case Unknown => false
  }

  // ----- check as a search of the relation graph -----

  /** The user is granted at this key without following any userset. */
  predicate Hits(st: Store, rewrite: Userset, key: Key, user: string)
    decreases rewrite
  {
    match rewrite
    case Union(children) => exists child :: child in children && Hits(st, child, key, user)
    case This => exists candidate :: candidate in Direct(st, key.0, key.1) && Covers(candidate, user)
    case _ => false
  }

  /** The keys a rewrite rule refers to. */
  function Refers(st: Store, rewrite: Userset, key: Key): set<Key>
    decreases rewrite
  {
    match rewrite
    case Union(children) => set child, k | child in children && k in Refers(st, child, key) :: k
    case This => set candidate | candidate in Direct(st, key.0, key.1) && '#' in candidate :: SubKey(candidate)
    case Computed(r) => {(key.0, r)}
    case Through(tupleset, r) => set parent | parent in Direct(st, key.0, tupleset) :: (Before(parent, '#'), r)
    case Unknown => {}
  }

  function RelationGraph(st: Store, user: string): Graph<Key> {
    Graph((k: Key) => Refers(st, RewriteFor(st, k.0, k.1), k), (k: Key) => Hits(st, RewriteFor(st, k.0, k.1), k, user))
  }

  function WithUser(path: set<Key>, user: string): set<(string, string, string)> {
    set k | k in path :: (k.0, k.1, user)
  }

  /** The search succeeds from one of these keys. */
  ghost predicate AnyPruned(st: Store, user: string, keys: set<Key>, fuel: int, path: set<Key>) {
    exists k :: k in keys && Pruned(RelationGraph(st, user), k, fuel, path)
  }

  lemma PrunedSteps(st: Store, user: string, key: Key, fuel: int, path: set<Key>)
    ensures Pruned(RelationGraph(st, user), key, fuel, path) <==>
      fuel >= 0 && key !in path
      && (Hits(st, RewriteFor(st, key.0, key.1), key, user)
          || AnyPruned(st, user, Refers(st, RewriteFor(st, key.0, key.1), key), fuel - 1, path + {key}))
  {
    hide Hits, Refers, RewriteFor;
    var g, rewrite := RelationGraph(st, user), RewriteFor(st, key.0, key.1);
    assert g.next(key) == Refers(st, rewrite, key) && (g.goal(key) <==> Hits(st, rewrite, key, user));
    forall k | k in g.next(key)
      ensures Pruned(g, k, fuel - 1, path + {key}) ==> AnyPruned(st, user, Refers(st, rewrite, key), fuel - 1, path + {key})
    {
    }
  }

  lemma {:induction false} CheckIsPruned(st: Store, key: Key, user: string, depth: nat, path: set<Key>)
    ensures Check(st, key.0, key.1, user, depth, WithUser(path, user))
      <==> Pruned(RelationGraph(st, user), key, st.maxDepth - depth, path)
    decreases if depth > st.maxDepth then 0 else st.maxDepth + 1 - depth, 1, This
  {
    hide CheckUserset, Hits, Refers, RewriteFor, Pruned, AnyPruned, RelationGraph;
    PrunedSteps(st, user, key, st.maxDepth - depth, path);
    if depth <= st.maxDepth && key !in path {
      assert WithUser(path, user) + {(key.0, key.1, user)} == WithUser(path + {key}, user);
      CheckUsersetIsPruned(st, RewriteFor(st, key.0, key.1), key, user, depth, path + {key});
    }
  }

  lemma {:induction false} CheckUsersetIsPruned(st: Store, rewrite: Userset, key: Key, user: string, depth: nat, path: set<Key>)
    requires depth <= st.maxDepth
    ensures CheckUserset(st, rewrite, key.0, key.1, user, depth, WithUser(path, user))
      <==> Hits(st, rewrite, key, user) || AnyPruned(st, user, Refers(st, rewrite, key), st.maxDepth - depth - 1, path)
    decreases st.maxDepth + 1 - depth, 0, rewrite
  {
    hide Pruned, RelationGraph, WithUser, Direct, Check;
    var seen, fuel := WithUser(path, user), st.maxDepth - depth - 1;
    match rewrite
    case Union(children) =>
      hide CheckUserset;
      forall child | child in children
        ensures CheckUserset(st, child, key.0, key.1, user, depth, seen)
          <==> Hits(st, child, key, user) || AnyPruned(st, user, Refers(st, child, key), fuel, path)
      {
        CheckUsersetIsPruned(st, child, key, user, depth, path);
      }
      UnionSteps(st, children, key, user, depth, path);
    case This =>
      forall candidate | candidate in Direct(st, key.0, key.1) && '#' in candidate
        ensures Check(st, SubKey(candidate).0, SubKey(candidate).1, user, depth + 1, seen)
          <==> Pruned(RelationGraph(st, user), SubKey(candidate), fuel, path)
      {
        CheckIsPruned(st, SubKey(candidate), user, depth + 1, path);
      }
      hide SubKey;
    case Computed(r) =>
      CheckIsPruned(st, (key.0, r), user, depth + 1, path);
      assert (key.0, r) in Refers(st, rewrite, key);
    case Through(tupleset, r) =>
      forall parent | parent in Direct(st, key.0, tupleset)
        ensures Check(st, Before(parent, '#'), r, user, depth + 1, seen)
          <==> Pruned(RelationGraph(st, user), (Before(parent, '#'), r), fuel, path)
      {
        CheckIsPruned(st, (Before(parent, '#'), r), user, depth + 1, path);
      }
      hide Before;
    case Unknown =>
  }

  lemma UnionSteps(st: Store, children: seq<Userset>, key: Key, user: string, depth: nat, path: set<Key>)
    requires depth <= st.maxDepth
    requires forall child :: child in children ==>
      (CheckUserset(st, child, key.0, key.1, user, depth, WithUser(path, user))
       <==> Hits(st, child, key, user) || AnyPruned(st, user, Refers(st, child, key), st.maxDepth - depth - 1, path))
    ensures CheckUserset(st, Union(children), key.0, key.1, user, depth, WithUser(path, user))
      <==> Hits(st, Union(children), key, user)
           || AnyPruned(st, user, Refers(st, Union(children), key), st.maxDepth - depth - 1, path)
  {
    hide Pruned, RelationGraph, WithUser, Direct, Check;
    var fuel := st.maxDepth - depth - 1;
    forall child | child in children && AnyPruned(st, user, Refers(st, child, key), fuel, path)
      ensures AnyPruned(st, user, Refers(st, Union(children), key), fuel, path)
    {
    }
    if AnyPruned(st, user, Refers(st, Union(children), key), fuel, path) {
      var k :| k in Refers(st, Union(children), key) && Pruned(RelationGraph(st, user), k, fuel, path);
      var child :| child in children && k in Refers(st, child, key);
      assert AnyPruned(st, user, Refers(st, child, key), fuel, path);
    }
  }

  /** Cycle pruning loses no answer: check holds exactly when a walk of at most maxDepth rewrite steps names the user. */
  lemma CheckIsBoundedSearch(st: Store, key: Key, user: string)
    ensures Check(st, key.0, key.1, user, 0, {}) <==> Within(RelationGraph(st, user), key, st.maxDepth)
  {
    hide Check, Within, Pruned, RelationGraph;
    assert WithUser({}, user) == {};
    CheckIsPruned(st, key, user, 0, {});
    PruningIsComplete(RelationGraph(st, user), key, st.maxDepth);
  }

  /** With a depth that covers the reachable keys, check is the least relation closed under the rewrite rules. */
  lemma CheckIsLeastFixpoint(st: Store, key: Key, user: string, keys: set<Key>)
    requires Closed(RelationGraph(st, user), keys) && key in keys && |keys| <= st.maxDepth + 1
    ensures Check(st, key.0, key.1, user, 0, {}) <==> Reachable(RelationGraph(st, user), key)
  {
    CheckIsBoundedSearch(st, key, user);
    BoundSuffices(RelationGraph(st, user), key, st.maxDepth, keys);
  }

  lemma {:induction false} HitsMonotone(st: Store, more: Store, rewrite: Userset, key: Key, user: string)
    requires st.tuples <= more.tuples && Hits(st, rewrite, key, user)
    ensures Hits(more, rewrite, key, user)
    decreases rewrite
  {
    match rewrite
    case Union(children) =>
      var child :| child in children && Hits(st, child, key, user);
      HitsMonotone(st, more, child, key, user);
    case This =>
      assert Direct(st, key.0, key.1) <= Direct(more, key.0, key.1);
    case _ =>
  }

  lemma {:induction false} RefersMonotone(st: Store, more: Store, rewrite: Userset, key: Key)
    requires st.tuples <= more.tuples
    ensures Refers(st, rewrite, key) <= Refers(more, rewrite, key)
    decreases rewrite
  {
    match rewrite
    case Union(children) =>
      forall child | child in children
        ensures Refers(st, child, key) <= Refers(more, child, key)
      {
        RefersMonotone(st, more, child, key);
      }
    case Through(tupleset, r) =>
      assert Direct(st, key.0, tupleset) <= Direct(more, key.0, tupleset);
    case _ =>
      assert Direct(st, key.0, key.1) <= Direct(more, key.0, key.1);
  }

  /** Writing tuples, or allowing more depth, never turns an allowed check into a denied one. */
  lemma CheckMonotone(st: Store, more: Store, key: Key, user: string)
    requires st.tuples <= more.tuples && st.namespaces == more.namespaces && st.maxDepth <= more.maxDepth
    requires Check(st, key.0, key.1, user, 0, {})
    ensures Check(more, key.0, key.1, user, 0, {})
  {
    CheckIsBoundedSearch(st, key, user);
    CheckIsBoundedSearch(more, key, user);
    var g, h := RelationGraph(st, user), RelationGraph(more, user);
    forall k: Key
      ensures g.next(k) <= h.next(k) && (g.goal(k) ==> h.goal(k))
    {
      var rewrite := RewriteFor(st, k.0, k.1);
      RefersMonotone(st, more, rewrite, k);
      if g.goal(k) {
        HitsMonotone(st, more, rewrite, k, user);
      }
    }
    WithinMonotone(g, h, key, st.maxDepth, more.maxDepth);
  }
}
