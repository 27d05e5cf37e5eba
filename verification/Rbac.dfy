/** Roles with inheritance (authlab/authz/rbac.py). */
module Rbac {
  import opened BoundedSearch
  import opened Text

  datatype Role = Role(permissions: set<string>, inherits: set<string>)

  type Roles = map<string, Role>

  /** The defined roles a role inherits from; undefined names are skipped. */
  function Inherited(roles: Roles, name: string): set<string> {
    if name in roles then roles[name].inherits * roles.Keys else {}
  }

  function RoleGraph(roles: Roles, target: string): Graph<string> {
    Graph((n: string) => Inherited(roles, n), (n: string) => n == target && n in roles)
  }

  /** The role is held, directly or by inheritance. */
  ghost predicate Effective(roles: Roles, held: set<string>, name: string) {
    exists a :: a in held && a in roles && Reachable(RoleGraph(roles, name), a)
  }

  /** _matches: wildcards on resource:action. */
  predicate Matches(granted: string, required: string) {
    granted == "*" || granted == required
    || (':' in granted && ':' in required
        && (Before(granted, ':') == "*" || Before(granted, ':') == Before(required, ':'))
        && (After(granted, ':') == "*" || After(granted, ':') == After(required, ':')))
  }

  /** Some effective role carries this permission. */
  ghost predicate Granted(roles: Roles, held: set<string>, permission: string) {
    exists name :: name in roles && Effective(roles, held, name) && permission in roles[name].permissions
  }

  ghost predicate Can(roles: Roles, held: set<string>, permission: string) {
    exists g :: Granted(roles, held, g) && Matches(g, permission)
  }

  // ----- What a permission check means -----

  /** resource:action, cut at the first colon. */
  ghost predicate IsPair(permission: string, resource: string, action: string) {
    ':' !in resource && permission == resource + ":" + action
  }

  lemma PairIff(permission: string, resource: string, action: string)
    ensures IsPair(permission, resource, action) <==>
      ':' in permission && resource == Before(permission, ':') && action == After(permission, ':')
  {
    if ':' in permission {
      JoinSplit(permission, ':');
      assert Before(permission, ':') + [':'] + After(permission, ':') == Before(permission, ':') + ":" + After(permission, ':');
    }
    if IsPair(permission, resource, action) {
      SplitJoined(resource, ':', action);
      assert resource + [':'] + action == permission;
    }
  }

  /** A star stands for everything, or for any resource, or for any action. */
  lemma MatchesIff(granted: string, required: string)
    ensures Matches(granted, required) <==>
      || granted == "*" || granted == required
      || exists gr, ga, rr, ra :: IsPair(granted, gr, ga) && IsPair(required, rr, ra) && gr in {"*", rr} && ga in {"*", ra}
  {
    hide IsPair, Before, After;
    forall resource, action
      ensures IsPair(granted, resource, action) <==>
        ':' in granted && resource == Before(granted, ':') && action == After(granted, ':')
    {
      PairIff(granted, resource, action);
    }
    forall resource, action
      ensures IsPair(required, resource, action) <==>
        ':' in required && resource == Before(required, ':') && action == After(required, ':')
    {
      PairIff(required, resource, action);
    }
    if ':' in granted && ':' in required {
      assert IsPair(granted, Before(granted, ':'), After(granted, ':')) && IsPair(required, Before(required, ':'), After(required, ':'));
    }
  }

  /** A chain of defined roles, each inherited by the one before it. */
  ghost predicate IsInheritance(roles: Roles, w: seq<string>) {
    && w != [] && (forall i :: 0 <= i < |w| ==> w[i] in roles)
    && forall i :: 0 <= i < |w| - 1 ==> w[i + 1] in roles[w[i]].inherits
  }

  lemma InheritanceIff(roles: Roles, w: seq<string>)
    requires w != []
    ensures IsInheritance(roles, w) <==> FromTo(RoleGraph(roles, w[|w| - 1]), w, w[0])
  {
    var g := RoleGraph(roles, w[|w| - 1]);
    if FromTo(g, w, w[0]) {
      forall i | 0 <= i < |w|
        ensures w[i] in roles
      {
        if i < |w| - 1 {
          assert w[i + 1] in g.next(w[i]);
        }
      }
      forall i | 0 <= i < |w| - 1
        ensures w[i + 1] in roles[w[i]].inherits
      {
        assert w[i + 1] in g.next(w[i]);
      }
    }
  }

  /** Allowed means: from some role held a chain of inheritance leads to a role with a permission that matches. */
  lemma CanMeansChain(roles: Roles, held: set<string>, required: string)
    ensures Can(roles, held, required) <==>
      exists w, g :: IsInheritance(roles, w) && w[0] in held && g in roles[w[|w| - 1]].permissions && Matches(g, required)
  {
    hide Matches, FromTo;
    if Can(roles, held, required) {
      var g :| Granted(roles, held, g) && Matches(g, required);
      var name :| name in roles && Effective(roles, held, name) && g in roles[name].permissions;
      var a :| a in held && a in roles && Reachable(RoleGraph(roles, name), a);
      var fuel: nat :| Within(RoleGraph(roles, name), a, fuel);
      var w := WalkOfWithin(RoleGraph(roles, name), a, fuel);
      EndsAtGoal(roles, name, w, a);
      InheritanceIff(roles, w);
    }
    if w, g :| IsInheritance(roles, w) && w[0] in held && g in roles[w[|w| - 1]].permissions && Matches(g, required) {
      var name := w[|w| - 1];
      InheritanceIff(roles, w);
      WithinOfWalk(RoleGraph(roles, name), w, w[0], |w|);
      assert Reachable(RoleGraph(roles, name), w[0]);
      assert Effective(roles, held, name);
      assert Granted(roles, held, g);
    }
  }

  lemma EndsAtGoal(roles: Roles, name: string, w: seq<string>, a: string)
    requires FromTo(RoleGraph(roles, name), w, a)
    ensures w != [] && w[0] == a && w[|w| - 1] == name
  {
  }

  // ----- Cycles -----

  ghost predicate IsPath(roles: Roles, w: seq<string>) {
    forall i :: 0 <= i < |w| - 1 ==> w[i + 1] in Inherited(roles, w[i])
  }

  ghost predicate IsCycle(roles: Roles, w: seq<string>) {
    |w| >= 2 && IsPath(roles, w) && w[0] == w[|w| - 1]
  }

  ghost predicate Acyclic(roles: Roles) {
    forall w :: !IsCycle(roles, w)
  }

  /** `order` contains all that its members inherit from, and every inheritance points forward in it. */
  ghost predicate PointsForward(roles: Roles, order: seq<string>) {
    forall i, child :: 0 <= i < |order| && child in Inherited(roles, order[i]) ==> Later(order, i, child)
  }

  ghost predicate Later(order: seq<string>, i: int, child: string) {
    exists j :: 0 <= i < j < |order| && order[j] == child
  }

  /** What the visited roles inherit from comes later in the path, or is still on the stack. */
  ghost predicate StillToCome(roles: Roles, path: seq<string>, stack: seq<string>)
  {
    forall i, child :: 0 <= i < |path| && child in Inherited(roles, path[i]) ==> child in stack || Later(path, i, child)
  }

  ghost predicate Distinct(order: seq<string>) {
    forall i, j :: 0 <= i < j < |order| ==> order[i] != order[j]
  }

  // Along a path that starts in the order, positions only grow.
  lemma {:induction false} PathPositions(roles: Roles, order: seq<string>, w: seq<string>, k: nat) returns (first: nat, pos: nat)
    requires PointsForward(roles, order) && Distinct(order) && IsPath(roles, w) && k < |w| && w[0] in order
    ensures first < |order| && order[first] == w[0] && pos < |order| && order[pos] == w[k]
    ensures first <= pos && (k > 0 ==> first < pos)
  {
    if k == 0 {
      first :| 0 <= first < |order| && order[first] == w[0];
      pos := first;
    } else {
      first, pos := PathPositions(roles, order, w, k - 1);
      assert w[k - 1 + 1] in Inherited(roles, w[k - 1]);
      assert Later(order, pos, w[k]);
      pos :| pos < |order| && order[pos] == w[k] && first < pos;
    }
  }

  lemma NoCycleFromOrder(roles: Roles, order: seq<string>, w: seq<string>)
    requires PointsForward(roles, order) && Distinct(order) && |w| >= 2 && w[0] in order
    ensures !IsCycle(roles, w)
  {
    if IsCycle(roles, w) {
      var first, pos := PathPositions(roles, order, w, |w| - 1);
    }
  }

  // A cycle can be entered at any of its nodes.
  lemma RotateCycle(roles: Roles, w: seq<string>, i: nat)
    requires IsCycle(roles, w) && i < |w|
    ensures exists v :: IsCycle(roles, v) && v[0] == w[i]
  {
    if i == |w| - 1 {
      assert w[0] == w[i];
    } else {
      var v := w[i..] + w[1..i + 1];
      forall k | 0 <= k < |v| - 1
        ensures v[k + 1] in Inherited(roles, v[k])
      {
        if k < |w| - i - 1 {
          assert v[k] == w[i + k] && v[k + 1] == w[i + k + 1];
        } else {
          var m := k - (|w| - i - 1);
          assert v[k] == w[m] && v[k + 1] == w[m + 1];
        }
      }
      assert IsCycle(roles, v) && v[0] == w[i];
    }
  }

  /** Adding a role whose own inheritance has been checked keeps the hierarchy acyclic. */
  lemma DefinitionKeepsAcyclic(old_: Roles, name: string, role: Role, order: seq<string>)
    requires Acyclic(old_)
    requires PointsForward(old_[name := role], order) && Distinct(order) && name in order
    ensures Acyclic(old_[name := role])
  {
    var roles := old_[name := role];
    forall w
      ensures !IsCycle(roles, w)
    {
      if i :| 0 <= i < |w| && w[i] == name {
        NoCycleThrough(roles, name, order, w, i);
      } else {
        CycleElsewhere(old_, name, role, w);
      }
    }
  }

  lemma NoCycleThrough(roles: Roles, name: string, order: seq<string>, w: seq<string>, i: nat)
    requires PointsForward(roles, order) && Distinct(order) && name in order && i < |w| && w[i] == name
    ensures !IsCycle(roles, w)
  {
    forall v | |v| >= 2 && v[0] == name
      ensures !IsCycle(roles, v)
    {
      NoCycleFromOrder(roles, order, v);
    }
    if IsCycle(roles, w) {
      RotateCycle(roles, w, i);
    }
  }

  lemma CycleElsewhere(old_: Roles, name: string, role: Role, w: seq<string>)
    requires name !in w
    ensures IsCycle(old_[name := role], w) ==> IsCycle(old_, w) || !Acyclic(old_)
  {
    var roles := old_[name := role];
    forall i | 0 <= i < |w| - 1 && w[i + 1] in Inherited(roles, w[i])
      ensures w[i + 1] in Inherited(old_, w[i])
    {
      assert w[i] in w && w[i + 1] in w;
    }
  }

  // ----- When the check accepts -----

  /** The defined roles that can be reached from start, itself included. */
  ghost predicate Below(roles: Roles, start: string, x: string) {
    Effective(roles, {start}, x)
  }

  /** No role below start inherits start. */
  ghost predicate NotBelowItself(roles: Roles, start: string) {
    forall x :: Below(roles, start, x) ==> start !in Inherited(roles, x)
  }

  /** No role is inherited by two roles below start. */
  ghost predicate OneHeir(roles: Roles, start: string) {
    forall x, y, z :: Below(roles, start, x) && Below(roles, start, y) && z in Inherited(roles, x) && z in Inherited(roles, y) ==> x == y
  }

  /** What the check demands: the roles below start form a tree. */
  ghost predicate TreeBelow(roles: Roles, start: string) {
    NotBelowItself(roles, start) && OneHeir(roles, start)
  }

  ghost predicate AllDefined(roles: Roles, path: seq<string>) {
    forall i :: 0 <= i < |path| ==> path[i] in roles
  }

  /** How many roles on the path inherit z. */
  ghost function Heirs(roles: Roles, path: seq<string>, z: string): nat
    requires AllDefined(roles, path)
  {
    if path == [] then 0
    else
      var n := |path| - 1;
      Heirs(roles, path[..n], z) + if z in roles[path[n]].inherits then 1 else 0
  }

  /** How often z has been put on the stack when the roles on the path have been expanded. */
  ghost function Pushed(roles: Roles, start: string, path: seq<string>, z: string): nat
    requires AllDefined(roles, path)
  {
    Heirs(roles, path, z) + if z == start then 1 else 0
  }

  lemma {:induction false} OneHeirFound(roles: Roles, path: seq<string>, z: string) returns (i: nat)
    requires AllDefined(roles, path) && Heirs(roles, path, z) >= 1
    ensures i < |path| && z in roles[path[i]].inherits
  {
    var n := |path| - 1;
    if z in roles[path[n]].inherits {
      i := n;
    } else {
      i := OneHeirFound(roles, path[..n], z);
    }
  }

  lemma {:induction false} TwoHeirsFound(roles: Roles, path: seq<string>, z: string) returns (i: nat, j: nat)
    requires AllDefined(roles, path) && Heirs(roles, path, z) >= 2
    ensures i < j < |path| && z in roles[path[i]].inherits && z in roles[path[j]].inherits
  {
    var n := |path| - 1;
    if z in roles[path[n]].inherits {
      i := OneHeirFound(roles, path[..n], z);
      j := n;
    } else {
      i, j := TwoHeirsFound(roles, path[..n], z);
    }
  }

  lemma {:induction false} HeirsAtLeastOne(roles: Roles, path: seq<string>, z: string, i: nat)
    requires AllDefined(roles, path) && i < |path| && z in roles[path[i]].inherits
    ensures Heirs(roles, path, z) >= 1
  {
    var n := |path| - 1;
    if i < n {
      HeirsAtLeastOne(roles, path[..n], z, i);
    }
  }

  lemma {:induction false} HeirsAtLeastTwo(roles: Roles, path: seq<string>, z: string, i: nat, j: nat)
    requires AllDefined(roles, path) && i < j < |path| && z in roles[path[i]].inherits && z in roles[path[j]].inherits
    ensures Heirs(roles, path, z) >= 2
  {
    var n := |path| - 1;
    if j < n {
      HeirsAtLeastTwo(roles, path[..n], z, i, j);
    } else {
      HeirsAtLeastOne(roles, path[..n], z, i);
    }
  }

  ghost predicate AllBelow(roles: Roles, start: string, path: seq<string>) {
    forall z :: z in path && z in roles ==> Below(roles, start, z)
  }

  /** A defined role pushed twice is inherited by two roles, or is the start and inherited by one. */
  lemma PushedTwiceIsNoTree(roles: Roles, start: string, path: seq<string>, z: string)
    requires AllDefined(roles, path) && Distinct(path) && AllBelow(roles, start, path)
    requires z in roles && Pushed(roles, start, path, z) >= 2
    ensures !TreeBelow(roles, start)
  {
    hide Below;
    if Heirs(roles, path, z) >= 2 {
      var i, j := TwoHeirsFound(roles, path, z);
      assert path[i] in path && path[j] in path;
      assert z in Inherited(roles, path[i]) && z in Inherited(roles, path[j]);
    } else {
      var i := OneHeirFound(roles, path, z);
      assert path[i] in path && start in Inherited(roles, path[i]);
    }
  }

  /** If all roles below start are on the path and none was pushed twice, they form a tree. */
  lemma PushedOnceIsTree(roles: Roles, start: string, path: seq<string>)
    requires AllDefined(roles, path) && Distinct(path) && forall x :: Below(roles, start, x) ==> x in path
    requires start in roles && forall z :: z in roles ==> Pushed(roles, start, path, z) <= 1
    ensures TreeBelow(roles, start)
  {
    hide Below, Heirs;
    forall x | Below(roles, start, x)
      ensures start !in Inherited(roles, x)
    {
      var i :| 0 <= i < |path| && path[i] == x;
      if start in roles[path[i]].inherits {
        HeirsAtLeastOne(roles, path, start, i);
      }
    }
    forall x, y, z | Below(roles, start, x) && Below(roles, start, y) && z in Inherited(roles, x) && z in Inherited(roles, y)
      ensures x == y
    {
      var i :| 0 <= i < |path| && path[i] == x;
      var j :| 0 <= j < |path| && path[j] == y;
      if i < j {
        HeirsAtLeastTwo(roles, path, z, i, j);
      } else if j < i {
        HeirsAtLeastTwo(roles, path, z, j, i);
      }
    }
  }

  /** Every defined role that was pushed is still on the stack or on the path. */
  ghost predicate Balanced(roles: Roles, start: string, path: seq<string>, stack: seq<string>)
    requires AllDefined(roles, path)
  {
    forall z :: z in roles ==> multiset(stack)[z] + multiset(path)[z] == Pushed(roles, start, path, z)
  }

  lemma BalancedAtStart(roles: Roles, start: string)
    requires start in roles
    ensures Balanced(roles, start, [], [start]) && AllBelow(roles, start, [start]) && AllBelow(roles, start, [])
  {
    HeldIsEffective(roles, {start}, start);
  }

  lemma BalancedSkip(roles: Roles, start: string, path: seq<string>, rest: seq<string>, current: string)
    requires AllDefined(roles, path) && Balanced(roles, start, path, rest + [current]) && current !in roles
    ensures Balanced(roles, start, path, rest)
  {
  }

  lemma BalancedExpand(roles: Roles, start: string, path: seq<string>, rest: seq<string>, current: string, more: seq<string>)
    requires AllDefined(roles, path) && Balanced(roles, start, path, rest + [current]) && current in roles
    requires multiset(more) == multiset(roles[current].inherits)
    ensures AllDefined(roles, path + [current]) && Balanced(roles, start, path + [current], rest + more)
  {
    var after := path + [current];
    assert after[..|after| - 1] == path;
  }

  lemma AllBelowExpand(roles: Roles, start: string, path: seq<string>, rest: seq<string>, current: string, more: seq<string>)
    requires current in roles && AllBelow(roles, start, path) && AllBelow(roles, start, rest + [current])
    requires forall x :: x in more <==> x in roles[current].inherits
    ensures AllBelow(roles, start, path + [current]) && AllBelow(roles, start, rest + more)
  {
    hide Effective;
    assert current in rest + [current];
    forall z | z in more && z in roles
      ensures Below(roles, start, z)
    {
      InheritedIsEffective(roles, {start}, current, z);
    }
  }

  /** What the depth-first loop keeps. */
  ghost predicate Searching(roles: Roles, start: string, path: seq<string>, stack: seq<string>) {
    && StillToCome(roles, path, stack) && Distinct(path) && (start in path || start in stack)
    && AllDefined(roles, path) && Balanced(roles, start, path, stack)
    && AllBelow(roles, start, path) && AllBelow(roles, start, stack)
  }

  lemma SearchStarts(roles: Roles, start: string)
    requires start in roles
    ensures Searching(roles, start, [], [start])
  {
    hide Balanced, AllBelow;
    BalancedAtStart(roles, start);
    NothingVisited(roles, [start]);
  }

  lemma SearchSkips(roles: Roles, start: string, path: seq<string>, rest: seq<string>, current: string)
    requires Searching(roles, start, path, rest + [current]) && current !in roles && start in roles
    ensures Searching(roles, start, path, rest)
  {
    hide Balanced, AllBelow, StillToCome;
    BalancedSkip(roles, start, path, rest, current);
    AllBelowSkip(roles, start, rest, current);
    PathSkips(roles, path, current, rest);
  }

  lemma SearchExpands(roles: Roles, start: string, path: seq<string>, rest: seq<string>, current: string, more: seq<string>)
    requires Searching(roles, start, path, rest + [current]) && current in roles && current !in path
    requires multiset(more) == multiset(roles[current].inherits) && forall x :: x in more <==> x in roles[current].inherits
    ensures Searching(roles, start, path + [current], rest + more)
  {
    hide Balanced, AllBelow, StillToCome, Distinct;
    DistinctGrows(path, current);
    PathGrows(roles, path, current, rest, more);
    BalancedExpand(roles, start, path, rest, current, more);
    AllBelowExpand(roles, start, path, rest, current, more);
  }

  lemma SearchRefuses(roles: Roles, start: string, path: seq<string>, rest: seq<string>, current: string)
    requires Searching(roles, start, path, rest + [current]) && current in path
    ensures !TreeBelow(roles, start)
  {
    hide Balanced, AllBelow, StillToCome, Distinct, TreeBelow;
    SecondVisit(roles, start, path, rest, current);
  }

  lemma SearchEnds(roles: Roles, start: string, path: seq<string>)
    requires Searching(roles, start, path, [])
    ensures TreeBelow(roles, start) && PointsForward(roles, path) && Distinct(path) && start in path
  {
    hide Balanced, AllBelow, StillToCome, Distinct, TreeBelow, PointsForward;
    AllVisited(roles, start, path);
    NothingToCome(roles, path);
  }

  lemma LoneRoleIsTree(roles: Roles, start: string)
    requires start in roles
    ensures roles[start].inherits == {} ==> TreeBelow(roles, start)
  {
    if roles[start].inherits == {} {
      forall x | Below(roles, start, x)
        ensures x == start
      {
        EffectiveInClosed(roles, {start}, x, {start});
      }
    }
  }

  lemma NothingVisited(roles: Roles, stack: seq<string>)
    ensures StillToCome(roles, [], stack) && Distinct([])
  {
  }

  lemma NothingToCome(roles: Roles, path: seq<string>)
    requires StillToCome(roles, path, [])
    ensures PointsForward(roles, path)
  {
  }

  lemma DistinctGrows(path: seq<string>, current: string)
    requires Distinct(path) && current !in path
    ensures Distinct(path + [current])
  {
  }

  lemma AllBelowSkip(roles: Roles, start: string, rest: seq<string>, current: string)
    requires AllBelow(roles, start, rest + [current])
    ensures AllBelow(roles, start, rest)
  {
    hide Below;
    assert forall z :: z in rest ==> z in rest + [current];
  }

  /** Meeting a role that is already on the path means that it was pushed twice. */
  lemma SecondVisit(roles: Roles, start: string, path: seq<string>, rest: seq<string>, current: string)
    requires AllDefined(roles, path) && Distinct(path) && AllBelow(roles, start, path)
    requires Balanced(roles, start, path, rest + [current]) && current in path
    ensures !TreeBelow(roles, start)
  {
    hide TreeBelow, Below, Heirs;
    assert multiset(rest + [current])[current] >= 1 && multiset(path)[current] >= 1;
    PushedTwiceIsNoTree(roles, start, path, current);
  }

  /** With the stack empty the path holds every role below the start, once. */
  lemma AllVisited(roles: Roles, start: string, path: seq<string>)
    requires AllDefined(roles, path) && Distinct(path) && start in path
    requires StillToCome(roles, path, []) && Balanced(roles, start, path, [])
    ensures TreeBelow(roles, start)
  {
    hide TreeBelow, Heirs;
    forall x | Below(roles, start, x)
      ensures x in path
    {
      var visited := set p | p in path;
      forall h, m | h in visited && m in Inherited(roles, h)
        ensures m in visited
      {
        var i :| 0 <= i < |path| && path[i] == h;
        assert Later(path, i, m);
      }
      EffectiveInClosed(roles, {start}, x, visited);
    }
    forall z | z in roles
      ensures Pushed(roles, start, path, z) <= 1
    {
      DistinctOnce(path, z);
    }
    PushedOnceIsTree(roles, start, path);
  }

  lemma {:induction false} DistinctOnce(path: seq<string>, z: string)
    requires Distinct(path)
    ensures multiset(path)[z] <= 1
    decreases |path|
  {
    if path != [] {
      var n := |path| - 1;
      DistinctOnce(path[..n], z);
      assert path == path[..n] + [path[n]];
      assert path[n] !in path[..n];
    }
  }

  // ----- When a definition leaves the hierarchy acyclic -----

  /** Something below start inherits start exactly when a cycle runs through start. */
  lemma CycleThroughIff(roles: Roles, start: string)
    requires start in roles
    ensures NotBelowItself(roles, start) <==> forall w :: w != [] && w[0] == start ==> !IsCycle(roles, w)
  {
    if NotBelowItself(roles, start) {
      forall w | w != [] && w[0] == start
        ensures !IsCycle(roles, w)
      {
        if IsCycle(roles, w) {
          CycleGoesBelow(roles, start, w);
        }
      }
    } else {
      var x :| Below(roles, start, x) && start in Inherited(roles, x);
      var fuel: nat :| Within(RoleGraph(roles, x), start, fuel);
      var w := WalkOfWithin(RoleGraph(roles, x), start, fuel);
      assert IsCycle(roles, w + [start]);
    }
  }

  lemma CycleGoesBelow(roles: Roles, start: string, w: seq<string>)
    requires start in roles && IsCycle(roles, w) && w[0] == start
    ensures !NotBelowItself(roles, start)
  {
    var n := |w| - 2;
    PathGoesBelow(roles, start, w, n);
    assert w[n + 1] in Inherited(roles, w[n]);
  }

  lemma {:induction false} PathGoesBelow(roles: Roles, start: string, w: seq<string>, n: nat)
    requires start in roles && IsPath(roles, w) && n < |w| && w[0] == start
    ensures Below(roles, start, w[n])
    decreases n
  {
    if n == 0 {
      HeldIsEffective(roles, {start}, start);
    } else {
      PathGoesBelow(roles, start, w, n - 1);
      assert w[n - 1 + 1] in Inherited(roles, w[n - 1]);
      InheritedIsEffective(roles, {start}, w[n - 1], w[n]);
    }
  }

  /**
   Accepted or not, the hierarchy with the new definition is acyclic exactly when it was acyclic apart from this
   role and no role below it inherits it.
   */
  lemma AcyclicIff(old_: Roles, name: string, role: Role)
    ensures var roles := old_[name := role];
      Acyclic(roles) <==> Acyclic(old_ - {name}) && NotBelowItself(roles, name)
  {
    var roles, others := old_[name := role], old_ - {name};
    hide Below, NotBelowItself;
    CycleThroughIff(roles, name);
    forall w
      ensures name !in w ==> (IsCycle(roles, w) <==> IsCycle(others, w))
      ensures name in w ==> !IsCycle(others, w)
    {
      if name !in w {
        SamePath(roles, others, name, w);
      } else {
        UndefinedOnPath(others, name, w);
      }
    }
    if Acyclic(others) && NotBelowItself(roles, name) {
      forall w
        ensures !IsCycle(roles, w)
      {
        if IsCycle(roles, w) && name in w {
          var i :| 0 <= i < |w| && w[i] == name;
          RotateCycle(roles, w, i);
        }
      }
    }
  }

  lemma SamePath(roles: Roles, others: Roles, name: string, w: seq<string>)
    requires others == roles - {name} && name !in w
    ensures IsCycle(roles, w) <==> IsCycle(others, w)
  {
    forall i | 0 <= i < |w| - 1
      ensures w[i + 1] in Inherited(roles, w[i]) <==> w[i + 1] in Inherited(others, w[i])
    {
      assert w[i] in w && w[i + 1] in w;
    }
  }

  // No cycle leads through an undefined name.
  lemma UndefinedOnPath(roles: Roles, name: string, w: seq<string>)
    requires name !in roles && name in w
    ensures !IsCycle(roles, w)
  {
    var i :| 0 <= i < |w| && w[i] == name;
    if IsCycle(roles, w) {
      CycleIsDefined(roles, w, i);
    }
  }

  lemma CycleIsDefined(roles: Roles, w: seq<string>, i: nat)
    requires IsCycle(roles, w) && i < |w|
    ensures w[i] in roles
  {
    var k := if i > 0 then i - 1 else |w| - 2;
    assert w[k + 1] in Inherited(roles, w[k]);
  }

  /** Two roles that share a parent, and a role that inherits both: acyclic, and refused all the same. */
  function Diamond(): Roles {
    map["d" := Role({}, {"b", "c"}), "b" := Role({}, {"a"}), "c" := Role({}, {"a"}), "a" := Role({}, {})]
  }

  lemma DiamondIsRefused()
    ensures Acyclic(Diamond()) && NotBelowItself(Diamond(), "d") && !TreeBelow(Diamond(), "d")
  {
    var roles := Diamond();
    assert "a"[0] == 'a' && "b"[0] == 'b' && "c"[0] == 'c' && "d"[0] == 'd';
    assert "b" in Inherited(roles, "d") && "c" in Inherited(roles, "d");
    assert "a" in Inherited(roles, "b") && "a" in Inherited(roles, "c");
    HeldIsEffective(roles, {"d"}, "d");
    InheritedIsEffective(roles, {"d"}, "d", "b");
    InheritedIsEffective(roles, {"d"}, "d", "c");
    assert Below(roles, "d", "b") && Below(roles, "d", "c");
    DiamondIsAcyclic();
    CycleThroughIff(roles, "d");
  }

  lemma DiamondIsAcyclic()
    ensures Acyclic(Diamond())
  {
    var roles, order := Diamond(), ["d", "b", "c", "a"];
    assert "a"[0] == 'a' && "b"[0] == 'b' && "c"[0] == 'c' && "d"[0] == 'd';
    assert order[1] == "b" && order[2] == "c" && order[3] == "a";
    assert Inherited(roles, "d") == {"b", "c"} && Inherited(roles, "b") == {"a"} && Inherited(roles, "c") == {"a"} && Inherited(roles, "a") == {};
    assert PointsForward(roles, order);
    forall w
      ensures !IsCycle(roles, w)
    {
      if |w| >= 2 && w[0] in order {
        NoCycleFromOrder(roles, order, w);
      } else if |w| >= 2 {
        UndefinedOnPath(roles, w[0], w);
      }
    }
  }

  class RoleStore {
    var roles: Roles
    var assignments: map<string, set<string>>

    constructor ()
      ensures roles == map[] && assignments == map[]
    {
      roles := map[];
      assignments := map[];
    }

    /**
     define_role: the role is stored before its check, so a rejected definition stays behind. When every
     definition so far was accepted the hierarchy is acyclic; after a rejection it still is exactly when no role
     below the new one inherits it.
     */
    method DefineRole(name: string, permissions: set<string>, inherits: set<string>) returns (accepted: bool)
      modifies this`roles
      ensures roles == old(roles)[name := Role(permissions, inherits)]
      ensures accepted <==> TreeBelow(roles, name)
      ensures Acyclic(roles) <==> Acyclic(old(roles) - {name}) && NotBelowItself(roles, name)
      ensures accepted && Acyclic(old(roles)) ==> Acyclic(roles)
      ensures inherits == {} ==> accepted
    {
      hide OneHeir, NotBelowItself;
      var role := Role(permissions, inherits);
      ghost var before := roles;
      roles := roles[name := role];
      ghost var order;
      accepted, order := AssertAcyclic(name);
      AcyclicIff(before, name, role);
      if accepted && Acyclic(before) {
        DefinitionKeepsAcyclic(before, name, role, order);
      }
    }

    /** _assert_acyclic: depth-first; `path` is never shortened, so any second visit is refused. */
    method AssertAcyclic(start: string) returns (ok: bool, ghost order: seq<string>)
      requires start in roles
      ensures ok <==> TreeBelow(roles, start)
      ensures ok ==> PointsForward(roles, order) && Distinct(order) && start in order
      ensures roles[start].inherits == {} ==> ok
    {
      hide *;
      SearchStarts(roles, start);
      LoneRoleIsTree(roles, start);
      var stack, path: seq<string>, seen: set<string> := [start], [], {};
      while stack != []
        invariant forall n :: n in seen <==> n in path
        invariant seen <= roles.Keys
        invariant Searching(roles, start, path, stack)
        decreases roles.Keys - seen, |stack|
      {
        var current := stack[|stack| - 1];
        var rest := stack[..|stack| - 1];
        assert stack == rest + [current];
        if current in path {
          SearchRefuses(roles, start, path, rest, current);
          return false, [];
        }
        if current !in roles {
          SearchSkips(roles, start, path, rest, current);
          stack := rest;
          continue;
        }
        var more := Enumerate(roles[current].inherits);
        SearchExpands(roles, start, path, rest, current, more);
        seen := seen + {current};
        path := path + [current];
        stack := rest + more;
      }
      SearchEnds(roles, start, path);
      return true, path;
    }

    /** stack.extend of a set, in any order. */
    static method Enumerate(s: set<string>) returns (r: seq<string>)
      ensures forall x :: x in r <==> x in s
      ensures multiset(r) == multiset(s)
    {
      r := [];
      var left := s;
      while left != {}
        invariant left <= s && multiset(r) == multiset(s - left)
        invariant forall x :: x in r <==> x in s && x !in left
        decreases left
      {
        var x :| x in left;
        r := r + [x];
        assert s - (left - {x}) == (s - left) + {x};
        left := left - {x};
      }
    }

    /** assign: every name must be a defined role, otherwise nothing changes. */
    method Assign(subject: string, names: seq<string>) returns (ok: bool)
      modifies this`assignments
      ensures ok <==> forall n :: n in names ==> n in roles
      ensures !ok ==> assignments == old(assignments)
      ensures ok ==> assignments == old(assignments)[subject := old(Held(subject)) + set n | n in names]
    {
      for i := 0 to |names|
        invariant forall n :: n in names[..i] ==> n in roles
        invariant assignments == old(assignments)
      {
        if names[i] !in roles {
          return false;
        }
      }
      assert names[..|names|] == names;
      assignments := assignments[subject := Held(subject) + set n | n in names];
      return true;
    }

    /** unassign: a subject that holds nothing stays unrecorded. */
    method Unassign(subject: string, names: seq<string>)
      modifies this`assignments
      ensures forall s :: (s in assignments <==> s in old(assignments))
      ensures forall s :: s in assignments ==>
        assignments[s] == if s == subject then old(assignments)[s] - set n | n in names else old(assignments)[s]
    {
      if Held(subject) != {} {
        assignments := assignments[subject := Held(subject) - set n | n in names];
      }
    }

    function Held(subject: string): set<string>
      reads this
    {
      if subject in assignments then assignments[subject] else {}
    }

    /** effective_roles: the worklist finds exactly the roles held directly or by inheritance. */
    method EffectiveRoles(subject: string) returns (result: set<string>)
      ensures forall n :: n in result <==> Effective(roles, Held(subject), n)
    {
      hide Effective;
      var held := Held(subject);
      result := {};
      var queue := Enumerate(held);
      forall n | n in queue && n in roles
        ensures Effective(roles, held, n)
      {
        HeldIsEffective(roles, held, n);
      }
      while queue != []
        invariant result <= roles.Keys
        invariant forall n :: n in result || (n in queue && n in roles) ==> Effective(roles, held, n)
        invariant forall n :: n in held && n in roles ==> n in result || n in queue
        invariant forall n, m :: n in result && m in Inherited(roles, n) ==> m in result || m in queue
        decreases roles.Keys - result, |queue|
      {
        var name, rest := queue[|queue| - 1], queue[..|queue| - 1];
        assert queue == rest + [name];
        if name in result || name !in roles {
          queue := rest;
          continue;
        }
        var more := Enumerate(roles[name].inherits);
        forall m | m in more && m in roles
          ensures Effective(roles, held, m)
        {
          InheritedIsEffective(roles, held, name, m);
        }
        result := result + {name};
        queue := rest + more;
      }
      forall n | Effective(roles, held, n)
        ensures n in result
      {
        EffectiveInClosed(roles, held, n, result);
      }
    }

    /** effective_permissions: the union over the effective roles. */
    method EffectivePermissions(subject: string) returns (permissions: set<string>)
      ensures forall g :: g in permissions <==> Granted(roles, Held(subject), g)
    {
      hide Effective;
      var names := EffectiveRoles(subject);
      forall n | n in names
        ensures n in roles
      {
        EffectiveIsDefined(roles, Held(subject), n);
      }
      permissions := {};
      var left := names;
      while left != {}
        invariant left <= names
        invariant forall g :: g in permissions <==> exists n :: n in names && n !in left && n in roles && g in roles[n].permissions
        decreases left
      {
        var n :| n in left;
        permissions := permissions + roles[n].permissions;
        left := left - {n};
      }
    }

    /** can: some granted permission matches. */
    method IsAllowed(subject: string, permission: string) returns (allowed: bool)
      ensures allowed <==> Can(roles, Held(subject), permission)
    {
      hide Matches, Granted;
      var granted := EffectivePermissions(subject);
      allowed := exists g :: g in granted && Matches(g, permission);
    }
  }

  lemma HeldIsEffective(roles: Roles, held: set<string>, n: string)
    requires n in held && n in roles
    ensures Effective(roles, held, n)
  {
    assert Within(RoleGraph(roles, n), n, 0);
  }

  lemma {:induction false} ReachOnward(roles: Roles, a: string, name: string, next: string, fuel: int)
    requires Within(RoleGraph(roles, name), a, fuel) && next in Inherited(roles, name)
    ensures Within(RoleGraph(roles, next), a, fuel + 1)
    decreases fuel
  {
    if a == name {
      assert Within(RoleGraph(roles, next), next, fuel + 1 - 1);
      assert next in RoleGraph(roles, next).next(a);
    } else {
      var m :| m in Inherited(roles, a) && Within(RoleGraph(roles, name), m, fuel - 1);
      ReachOnward(roles, m, name, next, fuel - 1);
      assert m in RoleGraph(roles, next).next(a);
    }
  }

  lemma InheritedIsEffective(roles: Roles, held: set<string>, name: string, next: string)
    requires Effective(roles, held, name) && next in Inherited(roles, name)
    ensures Effective(roles, held, next)
  {
    var a :| a in held && a in roles && Reachable(RoleGraph(roles, name), a);
    var fuel: nat :| Within(RoleGraph(roles, name), a, fuel);
    ReachOnward(roles, a, name, next, fuel);
  }

  lemma {:induction false} EffectiveIsDefined(roles: Roles, held: set<string>, n: string)
    requires Effective(roles, held, n)
    ensures n in roles
  {
    var a :| a in held && a in roles && Reachable(RoleGraph(roles, n), a);
    var fuel: nat :| Within(RoleGraph(roles, n), a, fuel);
    var w := WalkOfWithin(RoleGraph(roles, n), a, fuel);
  }

  lemma EffectiveInClosed(roles: Roles, held: set<string>, n: string, result: set<string>)
    requires Effective(roles, held, n)
    requires forall h :: h in held && h in roles ==> h in result
    requires forall h, m :: h in result && m in Inherited(roles, h) ==> m in result
    ensures n in result
  {
    var a :| a in held && a in roles && Reachable(RoleGraph(roles, n), a);
    var fuel: nat :| Within(RoleGraph(roles, n), a, fuel);
    WithinInClosed(RoleGraph(roles, n), a, fuel, m => m in result ==> n in result);
  }

  /** Without inheritance the effective roles are the held ones. */
  lemma EffectiveWhenFlat(roles: Roles, held: set<string>, n: string)
    requires forall r :: r in roles ==> roles[r].inherits == {}
    ensures Effective(roles, held, n) <==> n in held && n in roles
  {
    if n in held && n in roles {
      HeldIsEffective(roles, held, n);
    }
    if Effective(roles, held, n) {
      EffectiveInClosed(roles, held, n, held * roles.Keys);
    }
  }

  lemma PathGrows(roles: Roles, path: seq<string>, current: string, rest: seq<string>, more: seq<string>)
    requires current !in path && current in roles
    requires forall x :: x in more <==> x in roles[current].inherits
    requires StillToCome(roles, path, rest + [current])
    ensures StillToCome(roles, path + [current], rest + more)
  {
    var after := path + [current];
    forall i, child | 0 <= i < |after| && child in Inherited(roles, after[i])
      ensures child in rest + more || Later(after, i, child)
    {
      if i < |path| {
        assert after[i] == path[i];
        if child !in rest {
          if child == current {
            assert after[|path|] == child;
          } else {
            assert child !in rest + [current];
            var j :| i < j < |path| && path[j] == child;
            assert after[j] == child;
          }
        }
      } else {
        assert child in more;
      }
    }
  }

  /** A name the walk still has on its stack but that is undefined can be dropped. */
  lemma PathSkips(roles: Roles, path: seq<string>, current: string, rest: seq<string>)
    requires current !in roles && StillToCome(roles, path, rest + [current])
    ensures StillToCome(roles, path, rest)
  {
    forall i, child | 0 <= i < |path| && child in Inherited(roles, path[i])
      ensures child in rest || Later(path, i, child)
    {
      assert child != current;
      assert child in rest + [current] ==> child in rest;
    }
  }
}
