/** The reverse queries of the relation engine, and the engine itself (authlab/authz/rebac.py). */
module RebacQueries {
  import opened Text
  import opened Rebac

  // ----- expand -----

  /** The userset tree; sibling entries are keyed by the tuple user they come from. */
  datatype Tree =
    | DepthLimit
    | Cycle(at: Key)
    | UnionNode(children: seq<Tree>)
    | ThisNode(users: set<string>, usersets: map<string, Tree>)
    | ComputedNode(expanded: Tree)
    | ThroughNode(branches: map<string, Tree>)
    | UnknownNode

  function Expand(st: Store, key: Key, depth: nat, path: set<Key>): Tree
    decreases if depth > st.maxDepth then 0 else st.maxDepth + 1 - depth, 1, This
  {
    if depth > st.maxDepth then DepthLimit
    else if key in path then Cycle(key)
    else ExpandUserset(st, RewriteFor(st, key.0, key.1), key, depth, path + {key})
  }

  function ExpandUserset(st: Store, rewrite: Userset, key: Key, depth: nat, path: set<Key>): Tree
    requires depth <= st.maxDepth
    decreases st.maxDepth + 1 - depth, 0, rewrite
  {
    match rewrite
    case Union(children) =>
      UnionNode(seq(|children|, i requires 0 <= i < |children| => ExpandUserset(st, children[i], key, depth, path)))
    case This =>
      var candidates := Direct(st, key.0, key.1);
      ThisNode(set c | c in candidates && '#' !in c,
               map c | c in candidates && '#' in c :: Expand(st, SubKey(c), depth + 1, path))
    case Computed(r) => ComputedNode(Expand(st, (key.0, r), depth + 1, path))
    case Through(tupleset, r) =>
      ThroughNode(map p | p in Direct(st, key.0, tupleset) :: Expand(st, (Before(p, '#'), r), depth + 1, path))
    case Unknown => UnknownNode
  }

  /** The concrete subjects of a tree: what list_users flattens it to. */
  function Users(t: Tree): set<string> {
    match t
    case UnionNode(children) => set i, u | 0 <= i < |children| && u in Users(children[i]) :: u
    case ThisNode(users, usersets) => users + set c, u | c in usersets && u in Users(usersets[c]) :: u
    case ComputedNode(expanded) => Users(expanded)
    case ThroughNode(branches) => set p, u | p in branches && u in Users(branches[p]) :: u
    case _ => {}
  }

  function ListUsers(st: Store, key: Key): set<string> {
    Users(Expand(st, key, 0, {}))
  }

  /** The user or a wildcard that covers it is in the list. */
  ghost predicate Named(users: set<string>, user: string) {
    exists u :: u in users && Covers(u, user)
  }

  // A wildcard with a '#' in it covers no user without one.
  lemma CoverHasNoHash(candidate: string, user: string)
    requires Covers(candidate, user) && '#' !in user
    ensures '#' !in candidate
  {
    if WildcardCovers(candidate, user) {
      var n := |candidate| - 1;
      assert candidate[n] == candidate[|candidate| - 2..][1] == '*';
      assert candidate == candidate[..n] + [candidate[n]];
      assert user[..n] == candidate[..n];
    }
  }

  lemma {:induction false} ExpandIsCheck(st: Store, key: Key, user: string, depth: nat, path: set<Key>)
    requires '#' !in user
    ensures Named(Users(Expand(st, key, depth, path)), user) <==> Check(st, key.0, key.1, user, depth, WithUser(path, user))
    decreases if depth > st.maxDepth then 0 else st.maxDepth + 1 - depth, 1, This
  {
    hide ExpandUserset, CheckUserset, RewriteFor;
    if depth <= st.maxDepth && key !in path {
      assert WithUser(path, user) + {(key.0, key.1, user)} == WithUser(path + {key}, user);
      ExpandUsersetIsCheck(st, RewriteFor(st, key.0, key.1), key, user, depth, path + {key});
    }
  }

  lemma {:induction false} ExpandUsersetIsCheck(st: Store, rewrite: Userset, key: Key, user: string, depth: nat, path: set<Key>)
    requires '#' !in user && depth <= st.maxDepth
    ensures Named(Users(ExpandUserset(st, rewrite, key, depth, path)), user)
      <==> CheckUserset(st, rewrite, key.0, key.1, user, depth, WithUser(path, user))
    decreases st.maxDepth + 1 - depth, 0, rewrite
  {
    match rewrite
    case Union(children) =>
      forall i | 0 <= i < |children|
        ensures Named(Users(ExpandUserset(st, children[i], key, depth, path)), user)
          <==> CheckUserset(st, children[i], key.0, key.1, user, depth, WithUser(path, user))
      {
        ExpandUsersetIsCheck(st, children[i], key, user, depth, path);
      }
      UnionIsCheck(st, children, key, user, depth, path);
    case This =>
      forall c | c in Direct(st, key.0, key.1) && '#' in c
        ensures Named(Users(Expand(st, SubKey(c), depth + 1, path)), user)
          <==> Check(st, SubKey(c).0, SubKey(c).1, user, depth + 1, WithUser(path, user))
      {
        ExpandIsCheck(st, SubKey(c), user, depth + 1, path);
      }
      ThisIsCheck(st, key, user, depth, path);
    case Computed(r) =>
      ExpandIsCheck(st, (key.0, r), user, depth + 1, path);
    case Through(tupleset, r) =>
      forall p | p in Direct(st, key.0, tupleset)
        ensures Named(Users(Expand(st, (Before(p, '#'), r), depth + 1, path)), user)
          <==> Check(st, Before(p, '#'), r, user, depth + 1, WithUser(path, user))
      {
        ExpandIsCheck(st, (Before(p, '#'), r), user, depth + 1, path);
      }
      ThroughIsCheck(st, tupleset, r, key, user, depth, path);
    case Unknown =>
  }

  lemma UnionIsCheck(st: Store, children: seq<Userset>, key: Key, user: string, depth: nat, path: set<Key>)
    requires depth <= st.maxDepth
    requires forall i :: 0 <= i < |children| ==>
      (Named(Users(ExpandUserset(st, children[i], key, depth, path)), user)
       <==> CheckUserset(st, children[i], key.0, key.1, user, depth, WithUser(path, user)))
    ensures Named(Users(ExpandUserset(st, Union(children), key, depth, path)), user)
      <==> CheckUserset(st, Union(children), key.0, key.1, user, depth, WithUser(path, user))
  {
    hide Covers, WithUser;
    var node := ExpandUserset(st, Union(children), key, depth, path);
    if Named(Users(node), user) {
      var u :| u in Users(node) && Covers(u, user);
      var i :| 0 <= i < |children| && u in Users(node.children[i]);
      assert Named(Users(ExpandUserset(st, children[i], key, depth, path)), user);
    }
    if CheckUserset(st, Union(children), key.0, key.1, user, depth, WithUser(path, user)) {
      var child :| child in children && CheckUserset(st, child, key.0, key.1, user, depth, WithUser(path, user));
      var i :| 0 <= i < |children| && children[i] == child;
      var u :| u in Users(ExpandUserset(st, children[i], key, depth, path)) && Covers(u, user);
      assert u in Users(node.children[i]);
    }
  }

  lemma ThisIsCheck(st: Store, key: Key, user: string, depth: nat, path: set<Key>)
    requires '#' !in user && depth <= st.maxDepth
    requires forall c :: c in Direct(st, key.0, key.1) && '#' in c ==>
      (Named(Users(Expand(st, SubKey(c), depth + 1, path)), user)
       <==> Check(st, SubKey(c).0, SubKey(c).1, user, depth + 1, WithUser(path, user)))
    ensures Named(Users(ExpandUserset(st, This, key, depth, path)), user)
      <==> CheckUserset(st, This, key.0, key.1, user, depth, WithUser(path, user))
  {
    hide Expand, Check, WithUser, Direct, SubKey, WildcardCovers;
    var node := ExpandUserset(st, This, key, depth, path);
    var seen := WithUser(path, user);
    if Named(Users(node), user) {
      var u :| u in Users(node) && Covers(u, user);
      if u !in node.users {
        var c :| c in node.usersets && u in Users(node.usersets[c]);
        assert Named(Users(Expand(st, SubKey(c), depth + 1, path)), user);
        assert Check(st, SubKey(c).0, SubKey(c).1, user, depth + 1, seen);
      }
    }
    if CheckUserset(st, This, key.0, key.1, user, depth, seen) {
      var c :| c in Direct(st, key.0, key.1)
        && (c == user || ('#' in c && Check(st, SubKey(c).0, SubKey(c).1, user, depth + 1, seen)) || WildcardCovers(c, user));
      if '#' in c && Check(st, SubKey(c).0, SubKey(c).1, user, depth + 1, seen) {
        var u :| u in Users(Expand(st, SubKey(c), depth + 1, path)) && Covers(u, user);
        assert u in Users(node.usersets[c]);
        assert u in Users(node);
      } else {
        CoverHasNoHash(c, user);
        assert c in node.users;
        assert c in Users(node);
      }
    }
  }

  lemma ThroughIsCheck(st: Store, tupleset: string, r: string, key: Key, user: string, depth: nat, path: set<Key>)
    requires depth <= st.maxDepth
    requires forall p :: p in Direct(st, key.0, tupleset) ==>
      (Named(Users(Expand(st, (Before(p, '#'), r), depth + 1, path)), user)
       <==> Check(st, Before(p, '#'), r, user, depth + 1, WithUser(path, user)))
    ensures Named(Users(ExpandUserset(st, Through(tupleset, r), key, depth, path)), user)
      <==> CheckUserset(st, Through(tupleset, r), key.0, key.1, user, depth, WithUser(path, user))
  {
    hide Expand, Check, WithUser, Direct, Before, Covers;
    var node := ExpandUserset(st, Through(tupleset, r), key, depth, path);
    if Named(Users(node), user) {
      var u :| u in Users(node) && Covers(u, user);
      var p :| p in node.branches && u in Users(node.branches[p]);
      assert Named(Users(Expand(st, (Before(p, '#'), r), depth + 1, path)), user);
    }
    if CheckUserset(st, Through(tupleset, r), key.0, key.1, user, depth, WithUser(path, user)) {
      var p :| p in Direct(st, key.0, tupleset) && Check(st, Before(p, '#'), r, user, depth + 1, WithUser(path, user));
      var u :| u in Users(Expand(st, (Before(p, '#'), r), depth + 1, path)) && Covers(u, user);
      assert u in Users(node.branches[p]);
      assert u in Users(node);
    }
  }

  /** list_users agrees with check on every concrete user. */
  lemma ListUsersAgrees(st: Store, key: Key, user: string)
    requires '#' !in user
    ensures Check(st, key.0, key.1, user, 0, {}) <==> Named(ListUsers(st, key), user)
  {
    hide Check, Expand;
    assert WithUser({}, user) == {};
    ExpandIsCheck(st, key, user, 0, {});
  }

  // ----- list_objects -----

  /** Every object that is named in a tuple, on either side. */
  function Candidates(st: Store, kind: string): set<string> {
    (set t | t in st.tuples && StartsWith(t.object_, kind + ":") :: t.object_)
    + (set t | t in st.tuples && StartsWith(Before(t.user, '#'), kind + ":") :: Before(t.user, '#'))
  }

  function ListObjects(st: Store, user: string, relation: string, kind: string): set<string> {
    set o | o in Candidates(st, kind) && Check(st, o, relation, user, 0, {})
  }

  /** A granted check rests on some tuple of the object itself. */
  lemma {:induction false} GrantNamesObject(st: Store, object_: string, relation: string, user: string, depth: nat,
                                            seen: set<(string, string, string)>)
    requires Check(st, object_, relation, user, depth, seen)
    ensures exists t :: t in st.tuples && t.object_ == object_
    decreases if depth > st.maxDepth then 0 else st.maxDepth + 1 - depth, 1, This
  {
    hide CheckUserset, RewriteFor;
    GrantByRewrite(st, RewriteFor(st, object_, relation), object_, relation, user, depth,
                   seen + {(object_, relation, user)});
  }

  lemma {:induction false} GrantByRewrite(st: Store, rewrite: Userset, object_: string, relation: string, user: string, depth: nat,
                                          seen: set<(string, string, string)>)
    requires depth <= st.maxDepth && CheckUserset(st, rewrite, object_, relation, user, depth, seen)
    ensures exists t :: t in st.tuples && t.object_ == object_
    decreases st.maxDepth + 1 - depth, 0, rewrite
  {
    hide Check;
    match rewrite
    case Union(children) =>
      var child :| child in children && CheckUserset(st, child, object_, relation, user, depth, seen);
      GrantByRewrite(st, child, object_, relation, user, depth, seen);
    case Computed(r) =>
      GrantNamesObject(st, object_, r, user, depth + 1, seen);
    case _ =>
  }

  /** list_objects returns exactly the objects of the type for which check holds: its candidates miss none. */
  lemma ListObjectsAgrees(st: Store, user: string, relation: string, kind: string, object_: string)
    ensures object_ in ListObjects(st, user, relation, kind)
      <==> StartsWith(object_, kind + ":") && Check(st, object_, relation, user, 0, {})
  {
    hide Check;
    if StartsWith(object_, kind + ":") && Check(st, object_, relation, user, 0, {}) {
      GrantNamesObject(st, object_, relation, user, 0, {});
    }
  }

  // ----- The engine -----

  datatype Parsed = Malformed | Parsed(tuple: Tuple)

  /** Tuple.parse: object#relation@user, split at the first separators. */
  function Parse(text: string): Parsed {
    if '#' !in text then Malformed
    else
      var rest := After(text, '#');
      if '@' !in rest then Malformed
      else Parsed(Tuple(Before(text, '#'), Before(rest, '@'), After(rest, '@')))
  }

  function Show(t: Tuple): string {
    t.object_ + "#" + (t.relation + "@" + t.user)
  }

  /** Parsing undoes printing when the separators are free; the user half may contain anything. */
  lemma ParseShow(t: Tuple)
    requires '#' !in t.object_ && '@' !in t.relation
    ensures Parse(Show(t)) == Parsed(t)
  {
    SplitJoined(t.relation, '@', t.user);
    assert t.relation + ['@'] + t.user == t.relation + "@" + t.user;
    SplitJoined(t.object_, '#', t.relation + "@" + t.user);
    assert t.object_ + ['#'] + (t.relation + "@" + t.user) == Show(t);
  }

  /** What write and delete take: a tuple or its text. */
  datatype Item = Whole(tuple: Tuple) | Written(text: string)

  function TupleOf(item: Item): Parsed {
    if item.Whole? then Parsed(item.tuple) else Parse(item.text)
  }

  predicate Readable(items: seq<Item>) {
    forall i :: 0 <= i < |items| ==> TupleOf(items[i]).Parsed?
  }

  /** The tuples before the first malformed text. */
  function Given(items: seq<Item>): set<Tuple> {
    if items == [] || TupleOf(items[0]).Malformed? then {} else {TupleOf(items[0]).tuple} + Given(items[1..])
  }

  /** A list without malformed text gives the tuples of all its items. */
  lemma {:induction false} GivenIsAll(items: seq<Item>)
    requires Readable(items)
    ensures Given(items) == set item | item in items :: TupleOf(item).tuple
  {
    if items != [] {
      GivenIsAll(items[1..]);
      assert items == [items[0]] + items[1..];
    }
  }

  class Engine {
    const maxDepth: nat
    var namespaces: map<string, map<string, Userset>>
    var tuples: set<Tuple>

    function State(): Store
      reads this
    {
      Store(maxDepth, namespaces, tuples)
    }

    constructor (maxDepth: nat)
      ensures State() == Store(maxDepth, map[], {})
    {
      this.maxDepth := maxDepth;
      namespaces := map[];
      tuples := {};
    }

    /** namespace(kind).relation(name, rewrite). */
    method Relation(kind: string, name: string, rewrite: Userset)
      modifies this`namespaces
      ensures namespaces == old(namespaces)[kind :=
        (if kind in old(namespaces) then old(namespaces)[kind] else map[])[name := rewrite]]
    {
      var relations := if kind in namespaces then namespaces[kind] else map[];
      namespaces := namespaces[kind := relations[name := rewrite]];
    }

    /** write: it only ever adds grants. A malformed text raises, and what came before it stays written. */
    method Write(items: seq<Item>) returns (ok: bool)
      modifies this`tuples
      ensures ok <==> Readable(items)
      ensures tuples == old(tuples) + Given(items)
      ensures forall key: Key, user :: Check(old(State()), key.0, key.1, user, 0, {}) ==> Check(State(), key.0, key.1, user, 0, {})
    {
      var i := 0;
      ok := true;
      while ok && i < |items|
        invariant 0 <= i <= |items| && (ok ==> Readable(items[..i])) && (!ok ==> !Readable(items))
        invariant tuples + (if ok then Given(items[i..]) else {}) == old(tuples) + Given(items)
        decreases ok, |items| - i
      {
        hide Check, Parse;
        var item := TupleOf(items[i]);
        assert items[i..][0] == items[i] && items[i..][1..] == items[i + 1..];
        if item.Parsed? {
          tuples := tuples + {item.tuple};
          i := i + 1;
        } else {
          ok := false;
        }
      }
      assert ok ==> items[..i] == items && items[i..] == [];
      forall key: Key, user | Check(old(State()), key.0, key.1, user, 0, {})
        ensures Check(State(), key.0, key.1, user, 0, {})
      {
        CheckMonotone(old(State()), State(), key, user);
      }
    }

    /** delete: it never adds a grant. A malformed text raises, and what came before it stays removed. */
    method Delete(items: seq<Item>) returns (ok: bool)
      modifies this`tuples
      ensures ok <==> Readable(items)
      ensures tuples == old(tuples) - Given(items)
      ensures forall key: Key, user :: Check(State(), key.0, key.1, user, 0, {}) ==> Check(old(State()), key.0, key.1, user, 0, {})
    {
      var i := 0;
      ok := true;
      while ok && i < |items|
        invariant 0 <= i <= |items| && (ok ==> Readable(items[..i])) && (!ok ==> !Readable(items))
        invariant tuples - (if ok then Given(items[i..]) else {}) == old(tuples) - Given(items)
        invariant tuples <= old(tuples)
        decreases ok, |items| - i
      {
        hide Check, Parse;
        var item := TupleOf(items[i]);
        assert items[i..][0] == items[i] && items[i..][1..] == items[i + 1..];
        if item.Parsed? {
          tuples := tuples - {item.tuple};
          i := i + 1;
        } else {
          ok := false;
        }
      }
      assert ok ==> items[..i] == items && items[i..] == [];
      forall key: Key, user | Check(State(), key.0, key.1, user, 0, {})
        ensures Check(old(State()), key.0, key.1, user, 0, {})
      {
        CheckMonotone(State(), old(State()), key, user);
      }
    }

    /** list_users: flattens the expansion into `found`. */
    method CollectUsers(key: Key) returns (found: set<string>)
      ensures found == ListUsers(State(), key)
    {
      found := Walk(Expand(State(), key, 0, {}), {});
    }

    static method Walk(t: Tree, found: set<string>) returns (r: set<string>)
      ensures r == found + Users(t)
      decreases t, 1
    {
      r := found;
      match t
      case UnionNode(children) =>
        for i := 0 to |children|
          invariant forall u :: u in r <==> u in found || exists j :: 0 <= j < i && u in Users(children[j])
        {
          r := Walk(children[i], r);
        }
        forall u
          ensures u in Users(t) <==> exists j :: 0 <= j < |children| && u in Users(children[j])
        {
        }
      case ThisNode(users, usersets) =>
        r := WalkEach(usersets, found + users, t);
        forall u
          ensures u in Users(t) <==> u in users || exists c :: c in usersets && u in Users(usersets[c])
        {
        }
      case ComputedNode(expanded) =>
        r := Walk(expanded, found);
      case ThroughNode(branches) =>
        r := WalkEach(branches, found, t);
        forall u
          ensures u in Users(t) <==> exists p :: p in branches && u in Users(branches[p])
        {
        }
      case DepthLimit =>
      case Cycle(_) =>
      case UnknownNode =>
    }

    static method WalkEach(entries: map<string, Tree>, found: set<string>, ghost parent: Tree) returns (r: set<string>)
      requires (parent.ThisNode? && entries == parent.usersets) || (parent.ThroughNode? && entries == parent.branches)
      ensures forall u :: u in r <==> u in found || exists c :: c in entries && u in Users(entries[c])
      decreases parent, 0
    {
      r := found;
      var pending := entries.Keys;
      while pending != {}
        invariant pending <= entries.Keys
        invariant forall u :: u in r <==> u in found || exists c :: c in entries && c !in pending && u in Users(entries[c])
        decreases pending
      {
        var c :| c in pending;
        pending := pending - {c};
        r := Walk(entries[c], r);
      }
    }
  }
}
