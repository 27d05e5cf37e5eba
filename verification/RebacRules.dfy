/** What check means in terms of tuples and rewrite rules alone (authlab/authz/rebac.py). */
module RebacRules {
  import opened BoundedSearch
  import opened Text
  import opened Rebac

  /** The object type: everything before the first colon, or all of it. */
  ghost predicate IsKind(kind: string, object_: string) {
    ':' !in kind && (object_ == kind || exists rest :: object_ == kind + ":" + rest)
  }

  /** The object half of a tuple's user. */
  ghost predicate IsObjectOf(object_: string, user: string) {
    '#' !in object_ && (user == object_ || exists rest :: user == object_ + "#" + rest)
  }

  /** A rule that a union is made of. */
  ghost predicate Below(rewrite: Userset, rule: Userset)
    decreases rewrite
  {
    if rewrite.Union? then exists child :: child in rewrite.children && Below(child, rule) else rule == rewrite
  }

  /** The rules of a relation: those of its namespace, or the direct tuples where none is defined. */
  ghost predicate HasRule(st: Store, key: Key, rule: Userset) {
    exists kind :: IsKind(kind, key.0) &&
      if kind in st.namespaces && key.1 in st.namespaces[kind] then Below(st.namespaces[kind][key.1], rule) else rule == This
  }

  ghost predicate HasTuple(st: Store, object_: string, relation: string, user: string) {
    Tuple(object_, relation, user) in st.tuples
  }

  /** Being in the second relation puts a user in the first. */
  ghost predicate LeadsTo(st: Store, key: Key, next: Key) {
    exists rule :: HasRule(st, key, rule) && RuleLeadsTo(st, key, rule, next)
  }

  ghost predicate RuleLeadsTo(st: Store, key: Key, rule: Userset, next: Key) {
    match rule
    case This => '#' !in next.0 && HasTuple(st, key.0, key.1, next.0 + "#" + next.1)
    case Computed(r) => next == (key.0, r)
    case Through(tupleset, r) => next.1 == r && exists user :: HasTuple(st, key.0, tupleset, user) && IsObjectOf(next.0, user)
    case _ => false
  }

  /** A tuple names the user, or everyone of the user's kind. */
  ghost predicate Grants(st: Store, key: Key, user: string) {
    HasRule(st, key, This) && exists named :: HasTuple(st, key.0, key.1, named) && Names(named, user)
  }

  ghost predicate Names(named: string, user: string) {
    named == user || exists kind, rest :: named == kind + ":*" && user == kind + ":" + rest
  }

  /** A chain of relations from the one asked for to one that is granted. */
  ghost predicate IsChain(st: Store, user: string, chain: seq<Key>) {
    && chain != []
    && (forall i :: 0 <= i < |chain| - 1 ==> LeadsTo(st, chain[i], chain[i + 1]))
    && Grants(st, chain[|chain| - 1], user)
  }

  // ----- The functions of the model say the same -----

  lemma KindIff(kind: string, object_: string)
    ensures IsKind(kind, object_) <==> kind == Before(object_, ':')
  {
    if ':' in object_ {
      JoinSplit(object_, ':');
      assert object_ == Before(object_, ':') + ":" + After(object_, ':');
    }
    if rest :| object_ == kind + ":" + rest && ':' !in kind {
      SplitJoined(kind, ':', rest);
      assert kind + [':'] + rest == object_;
    }
  }

  lemma ObjectIff(object_: string, user: string)
    ensures IsObjectOf(object_, user) <==> object_ == Before(user, '#')
  {
    if '#' in user {
      JoinSplit(user, '#');
      assert user == Before(user, '#') + "#" + After(user, '#');
    }
    if rest :| user == object_ + "#" + rest && '#' !in object_ {
      SplitJoined(object_, '#', rest);
      assert object_ + ['#'] + rest == user;
    }
  }

  lemma SubKeyIff(user: string, next: Key)
    ensures '#' !in next.0 && user == next.0 + "#" + next.1 <==> '#' in user && SubKey(user) == next
  {
    if '#' in user {
      JoinSplit(user, '#');
      assert Before(user, '#') + ['#'] + After(user, '#') == Before(user, '#') + "#" + After(user, '#');
    }
    if '#' !in next.0 && user == next.0 + "#" + next.1 {
      SplitJoined(next.0, '#', next.1);
      assert next.0 + ['#'] + next.1 == user;
    }
  }

  lemma NamesIff(named: string, user: string)
    ensures Names(named, user) <==> Covers(named, user)
  {
    if WildcardCovers(named, user) {
      var n := |named|;
      var kind := named[..n - 2];
      assert named[n - 2] == named[n - 2..][0] == ':' && named[n - 1] == named[n - 2..][1] == '*';
      assert named == kind + ":*" && named[..n - 1] == kind + ":";
      assert user == kind + ":" + user[n - 1..];
    }
    if kind, rest :| named == kind + ":*" && user == kind + ":" + rest {
      assert named[|named| - 2..] == ":*" && named[..|named| - 1] == kind + ":" == user[..|kind| + 1];
    }
  }

  lemma RuleIff(st: Store, key: Key, rule: Userset)
    ensures HasRule(st, key, rule) <==> Below(RewriteFor(st, key.0, key.1), rule)
  {
    hide Below;
    KindIff(Before(key.0, ':'), key.0);
    if kind :| IsKind(kind, key.0) {
      KindIff(kind, key.0);
    }
    BelowItself(This, rule);
    forall kind | IsKind(kind, key.0)
      ensures kind == Before(key.0, ':')
    {
      KindIff(kind, key.0);
    }
  }

  lemma BelowItself(rewrite: Userset, rule: Userset)
    requires !rewrite.Union?
    ensures Below(rewrite, rule) <==> rule == rewrite
  {
  }

  lemma {:induction false} RefersIff(st: Store, rewrite: Userset, key: Key, next: Key)
    ensures next in Refers(st, rewrite, key) <==> exists rule :: Below(rewrite, rule) && RuleLeadsTo(st, key, rule, next)
    decreases rewrite
  {
    match rewrite
    case Union(children) =>
      forall child | child in children
        ensures next in Refers(st, child, key) <==> exists rule :: Below(child, rule) && RuleLeadsTo(st, key, rule, next)
      {
        RefersIff(st, child, key, next);
      }
      UnionRefersIff(st, children, key, next);
    case _ =>
      LeafRefersIff(st, rewrite, key, next);
      BelowItself(rewrite, rewrite);
      if rule :| Below(rewrite, rule) && RuleLeadsTo(st, key, rule, next) {
        BelowItself(rewrite, rule);
      }
  }

  lemma UnionRefersIff(st: Store, children: seq<Userset>, key: Key, next: Key)
    requires forall child :: child in children ==>
      (next in Refers(st, child, key) <==> exists rule :: Below(child, rule) && RuleLeadsTo(st, key, rule, next))
    ensures next in Refers(st, Union(children), key)
      <==> exists rule :: Below(Union(children), rule) && RuleLeadsTo(st, key, rule, next)
  {
    hide RuleLeadsTo;
    if next in Refers(st, Union(children), key) {
      var child :| child in children && next in Refers(st, child, key);
      var rule :| Below(child, rule) && RuleLeadsTo(st, key, rule, next);
      assert Below(Union(children), rule);
    }
    if rule :| Below(Union(children), rule) && RuleLeadsTo(st, key, rule, next) {
      var child :| child in children && Below(child, rule);
      assert next in Refers(st, child, key);
    }
  }

  lemma LeafRefersIff(st: Store, rule: Userset, key: Key, next: Key)
    requires !rule.Union?
    ensures next in Refers(st, rule, key) <==> RuleLeadsTo(st, key, rule, next)
  {
    match rule
    case This =>
      SubKeyIff(next.0 + "#" + next.1, next);
      forall user | user in Direct(st, key.0, key.1)
        ensures HasTuple(st, key.0, key.1, user)
        ensures '#' in user && SubKey(user) == next ==> user == next.0 + "#" + next.1 && '#' !in next.0
      {
        SubKeyIff(user, next);
      }
      hide SubKey, Before, After;
      if HasTuple(st, key.0, key.1, next.0 + "#" + next.1) {
        assert next.0 + "#" + next.1 in Direct(st, key.0, key.1);
      }
    case Through(tupleset, r) =>
      forall user | user in Direct(st, key.0, tupleset)
        ensures HasTuple(st, key.0, tupleset, user)
      {
      }
      forall user | HasTuple(st, key.0, tupleset, user)
        ensures user in Direct(st, key.0, tupleset)
      {
      }
      forall user
        ensures IsObjectOf(next.0, user) <==> next.0 == Before(user, '#')
      {
        ObjectIff(next.0, user);
      }
      hide Before, IsObjectOf;
    case _ =>
  }

  lemma {:induction false} HitsIff(st: Store, rewrite: Userset, key: Key, user: string)
    ensures Hits(st, rewrite, key, user) <==>
      Below(rewrite, This) && exists named :: HasTuple(st, key.0, key.1, named) && Names(named, user)
    decreases rewrite
  {
    hide Names;
    match rewrite
    case Union(children) =>
      forall child | child in children
        ensures Hits(st, child, key, user) <==>
          Below(child, This) && exists named :: HasTuple(st, key.0, key.1, named) && Names(named, user)
      {
        HitsIff(st, child, key, user);
      }
    case This =>
      forall named
        ensures Names(named, user) <==> Covers(named, user)
        ensures HasTuple(st, key.0, key.1, named) <==> named in Direct(st, key.0, key.1)
      {
        NamesIff(named, user);
      }
      hide Covers;
    case _ =>
  }

  lemma GraphMeans(st: Store, user: string, key: Key, next: Key)
    ensures next in RelationGraph(st, user).next(key) <==> LeadsTo(st, key, next)
    ensures RelationGraph(st, user).goal(key) <==> Grants(st, key, user)
  {
    hide Refers, Hits, RewriteFor, HasRule, Below, RuleLeadsTo, Names;
    RefersIff(st, RewriteFor(st, key.0, key.1), key, next);
    HitsIff(st, RewriteFor(st, key.0, key.1), key, user);
    forall rule
      ensures HasRule(st, key, rule) <==> Below(RewriteFor(st, key.0, key.1), rule)
    {
      RuleIff(st, key, rule);
    }
  }

  /**
   check in terms of tuples and rules: it holds exactly when a chain of relations, each leading to the next by a rule
   and a tuple, ends in a relation that is granted to the user, after at most max_depth steps.
   */
  lemma CheckMeansChain(st: Store, key: Key, user: string)
    ensures Check(st, key.0, key.1, user, 0, {}) <==>
      exists chain :: IsChain(st, user, chain) && chain[0] == key && |chain| <= st.maxDepth + 1
  {
    hide Check, RelationGraph, LeadsTo, Grants, Within;
    var g := RelationGraph(st, user);
    CheckIsBoundedSearch(st, key, user);
    if Within(g, key, st.maxDepth) {
      var w := WalkOfWithin(g, key, st.maxDepth);
      WalkIsChain(st, user, w);
    }
    if chain :| IsChain(st, user, chain) && chain[0] == key && |chain| <= st.maxDepth + 1 {
      WalkIsChain(st, user, chain);
      WithinOfWalk(g, chain, key, st.maxDepth);
    }
  }

  lemma WalkIsChain(st: Store, user: string, w: seq<Key>)
    requires w != []
    ensures FromTo(RelationGraph(st, user), w, w[0]) <==> IsChain(st, user, w)
  {
    hide RelationGraph, LeadsTo, Grants;
    GraphMeans(st, user, w[|w| - 1], w[0]);
    forall i | 0 <= i < |w| - 1
      ensures w[i + 1] in RelationGraph(st, user).next(w[i]) <==> LeadsTo(st, w[i], w[i + 1])
    {
      GraphMeans(st, user, w[i], w[i + 1]);
    }
  }
}
