/** Four of the five deciders over one policy dataset (authlab/authz/policy_comparison.py). */
module PolicyAdapters {
  import opened GroupResolution
  import opened Text
  import Abac
  import Rbac
  import opened Wrappers

  datatype Request = Request(subjectId: string, action: string, resourceId: string)

  datatype Decision = Decision(allowed: bool, code: string)

  function Denied(code: string): Decision {
    Decision(false, code)
  }

  predicate ReadOrWrite(action: string) {
    action == "read" || action == "write"
  }

  /** `resource.reader_group and resolve_group(...).matched`: an absent or empty group name matches nobody. */
  ghost predicate ReadsByGroup(ds: Dataset, s: Subject, r: Resource) {
    r.readerGroup.Some? && r.readerGroup.value != "" && MemberWithin(ds, s.id, r.readerGroup.value, ds.maxDepth)
  }

  method ResolveReader(ds: Dataset, s: Subject, r: Resource) returns (matched: bool)
    ensures matched <==> ReadsByGroup(ds, s, r)
  {
    if r.readerGroup.None? || r.readerGroup.value == "" {
      return false;
    }
    var resolution := ResolveGroup(ds, s.id, r.readerGroup.value);
    return resolution.matched;
  }

  // ----- The common meaning -----

  /** Who may do what once the guards are passed. */
  ghost predicate Permits(ds: Dataset, s: Subject, r: Resource, action: string) {
    ReadOrWrite(action) && (s.tenantAdmin || s.id == r.owner || (action == "read" && ReadsByGroup(ds, s, r)))
  }

  /** The effect and denial reason that every model is meant to give. */
  ghost predicate IsVerdict(ds: Dataset, q: Request, d: Decision) {
    if q.subjectId !in ds.subjects || q.resourceId !in ds.resources then d == Denied("unknown-entity")
    else
      var s, r := ds.subjects[q.subjectId], ds.resources[q.resourceId];
      if s.tenant != r.tenant then d == Denied("tenant-boundary")
      else if r.locked then d == Denied("explicit-deny")
      else if Permits(ds, s, r, q.action) then d.allowed
      else d == Denied("default-deny")
  }

  // ----- RBAC: materialized roles -----

  function OwnerRole(r: Resource): string { "owner:" + r.id }

  function ReaderRole(r: Resource): string { "reader:" + r.id }

  function AdminRole(tenant: string): string { "tenant-admin:" + tenant }

  function Permission(r: Resource, action: string): string { r.id + ":" + action }

  /** The role carries the permission. */
  ghost predicate Carries(ds: Dataset, name: string, g: string) {
    exists k :: k in ds.resources && CarriesFor(ds.resources[k], name, g)
  }

  predicate CarriesFor(r: Resource, name: string, g: string) {
    || ((name == OwnerRole(r) || name == AdminRole(r.tenant)) && (g == Permission(r, "read") || g == Permission(r, "write")))
    || (name == ReaderRole(r) && g == Permission(r, "read"))
  }

  /** The subject is given the role. */
  ghost predicate Given(ds: Dataset, s: Subject, name: string) {
    (s.tenantAdmin && name == AdminRole(s.tenant)) || exists k :: k in ds.resources && GivenFor(ds, s, ds.resources[k], name)
  }

  ghost predicate GivenFor(ds: Dataset, s: Subject, r: Resource, name: string) {
    (s.id == r.owner && name == OwnerRole(r)) || (ReadsByGroup(ds, s, r) && name == ReaderRole(r))
  }

  /** A role some resource among `keys` asks for. */
  ghost predicate Needed(ds: Dataset, keys: set<string>, name: string) {
    exists k :: k in keys && k in ds.resources && NeededFor(ds.resources[k], name)
  }

  predicate NeededFor(r: Resource, name: string) {
    name == OwnerRole(r) || name == ReaderRole(r) || name == AdminRole(r.tenant)
  }

  /** Flat roles, for exactly the resources in `keys`, each with exactly its permissions. */
  ghost predicate HasRoles(ds: Dataset, keys: set<string>, roles: Rbac.Roles) {
    RolesRight(ds, roles) && forall name :: name in roles <==> Needed(ds, keys, name)
  }

  ghost predicate RolesRight(ds: Dataset, roles: Rbac.Roles) {
    && (forall name :: name in roles ==> roles[name].inherits == {})
    && (forall name, g :: name in roles ==> (g in roles[name].permissions <==> Carries(ds, name, g)))
  }

  /** Exactly the subjects in `keys` hold exactly the roles given to them. */
  ghost predicate HasAssignments(ds: Dataset, keys: set<string>, assignments: map<string, set<string>>) {
    && (forall id, name :: id in assignments && name in assignments[id] ==> GivenById(ds, keys, id, name))
    && (forall id, name :: GivenById(ds, keys, id, name) ==> id in assignments && name in assignments[id])
  }

  ghost predicate GivenById(ds: Dataset, keys: set<string>, id: string, name: string) {
    exists k :: k in keys && k in ds.subjects && ds.subjects[k].id == id && Given(ds, ds.subjects[k], name)
  }

  /** Every tenant administrator's tenant owns some resource. */
  ghost predicate AdminsHaveResources(ds: Dataset) {
    forall k :: k in ds.subjects && ds.subjects[k].tenantAdmin ==> TenantHasResource(ds, ds.subjects[k].tenant)
  }

  ghost predicate TenantHasResource(ds: Dataset, tenant: string) {
    exists k :: k in ds.resources && ds.resources[k].tenant == tenant
  }

  // The three kinds of role name never clash.
  lemma RoleNamesDiffer(a: Resource, b: Resource, t: string, u: string)
    ensures OwnerRole(a) != ReaderRole(b) && OwnerRole(a) != AdminRole(t) && ReaderRole(a) != AdminRole(t)
    ensures OwnerRole(a) == OwnerRole(b) ==> a.id == b.id
    ensures ReaderRole(a) == ReaderRole(b) ==> a.id == b.id
    ensures AdminRole(t) == AdminRole(u) ==> t == u
  {
    assert OwnerRole(a)[0] == 'o' && ReaderRole(b)[0] == 'r' && ReaderRole(a)[0] == 'r' && AdminRole(t)[0] == 't';
    assert OwnerRole(a)[6..] == a.id && OwnerRole(b)[6..] == b.id;
    assert ReaderRole(a)[7..] == a.id && ReaderRole(b)[7..] == b.id;
    assert AdminRole(t)[13..] == t && AdminRole(u)[13..] == u;
  }

  lemma OwnerCarries(ds: Dataset, k: string, g: string)
    requires k in ds.resources
    ensures Carries(ds, OwnerRole(ds.resources[k]), g) <==>
      g == Permission(ds.resources[k], "read") || g == Permission(ds.resources[k], "write")
  {
    var r := ds.resources[k];
    assert CarriesFor(r, OwnerRole(r), Permission(r, "read")) && CarriesFor(r, OwnerRole(r), Permission(r, "write"));
    forall j | j in ds.resources && CarriesFor(ds.resources[j], OwnerRole(r), g)
      ensures g == Permission(r, "read") || g == Permission(r, "write")
    {
      RoleNamesDiffer(r, ds.resources[j], ds.resources[j].tenant, "");
    }
  }

  lemma ReaderCarries(ds: Dataset, k: string, g: string)
    requires k in ds.resources
    ensures Carries(ds, ReaderRole(ds.resources[k]), g) <==> g == Permission(ds.resources[k], "read")
  {
    var r := ds.resources[k];
    assert CarriesFor(r, ReaderRole(r), Permission(r, "read"));
    forall j | j in ds.resources && CarriesFor(ds.resources[j], ReaderRole(r), g)
      ensures g == Permission(r, "read")
    {
      RoleNamesDiffer(ds.resources[j], r, ds.resources[j].tenant, "");
      RoleNamesDiffer(r, ds.resources[j], ds.resources[j].tenant, "");
    }
  }

  lemma AdminCarries(ds: Dataset, tenant: string, g: string)
    ensures Carries(ds, AdminRole(tenant), g) <==>
      exists k :: k in ds.resources && ds.resources[k].tenant == tenant
        && (g == Permission(ds.resources[k], "read") || g == Permission(ds.resources[k], "write"))
  {
    forall j | j in ds.resources
      ensures CarriesFor(ds.resources[j], AdminRole(tenant), g) <==>
        ds.resources[j].tenant == tenant && (g == Permission(ds.resources[j], "read") || g == Permission(ds.resources[j], "write"))
    {
      RoleNamesDiffer(ds.resources[j], ds.resources[j], tenant, ds.resources[j].tenant);
    }
  }

  /** The permissions of a tenant's administrator role. */
  method TenantPermissions(ds: Dataset, tenant: string) returns (permissions: set<string>)
    ensures forall g :: g in permissions <==> Carries(ds, AdminRole(tenant), g)
  {
    permissions := set k, a | k in ds.resources && ds.resources[k].tenant == tenant && a in ["read", "write"]
      :: Permission(ds.resources[k], a);
    forall g
      ensures g in permissions <==> Carries(ds, AdminRole(tenant), g)
    {
      AdminCarries(ds, tenant, g);
      if Carries(ds, AdminRole(tenant), g) {
        var k :| k in ds.resources && ds.resources[k].tenant == tenant
          && (g == Permission(ds.resources[k], "read") || g == Permission(ds.resources[k], "write"));
        assert "read" in ["read", "write"] && "write" in ["read", "write"];
      }
    }
  }

  /** `if role not in roles: define_role(...)`. */
  method DefineMissing(ds: Dataset, engine: Rbac.RoleStore, name: string, permissions: set<string>)
    requires RolesRight(ds, engine.roles) && forall g :: g in permissions <==> Carries(ds, name, g)
    modifies engine`roles
    ensures RolesRight(ds, engine.roles) && engine.roles.Keys == old(engine.roles).Keys + {name}
  {
    hide Carries;
    if name !in engine.roles {
      var _ := engine.DefineRole(name, permissions, {});
    }
  }

  /** The roles of one resource. */
  method DefineFor(ds: Dataset, engine: Rbac.RoleStore, ghost done: set<string>, k: string)
    requires k in ds.resources && HasRoles(ds, done, engine.roles)
    modifies engine`roles
    ensures HasRoles(ds, done + {k}, engine.roles)
  {
    hide RolesRight, Carries, Permission, OwnerRole, ReaderRole, AdminRole;
    var r := ds.resources[k];
    forall g
      ensures Carries(ds, OwnerRole(r), g) <==> g == Permission(r, "read") || g == Permission(r, "write")
      ensures Carries(ds, ReaderRole(r), g) <==> g == Permission(r, "read")
    {
      OwnerCarries(ds, k, g);
      ReaderCarries(ds, k, g);
    }
    DefineMissing(ds, engine, OwnerRole(r), {Permission(r, "read"), Permission(r, "write")});
    DefineMissing(ds, engine, ReaderRole(r), {Permission(r, "read")});
    var permissions := TenantPermissions(ds, r.tenant);
    DefineMissing(ds, engine, AdminRole(r.tenant), permissions);
    NeededGrows(ds, done, k);
  }

  lemma NeededGrows(ds: Dataset, done: set<string>, k: string)
    requires k in ds.resources
    ensures forall name :: Needed(ds, done + {k}, name) <==> Needed(ds, done, name) || NeededFor(ds.resources[k], name)
  {
    hide NeededFor;
    forall name | NeededFor(ds.resources[k], name)
      ensures Needed(ds, done + {k}, name)
    {
      assert k in done + {k};
    }
  }

  /** The role names one subject is given. */
  method RolesGiven(ds: Dataset, s: Subject) returns (names: seq<string>)
    ensures forall n :: n in names <==> Given(ds, s, n)
  {
    hide ReadsByGroup, OwnerRole, ReaderRole, AdminRole;
    names := [];
    if s.tenantAdmin {
      names := names + [AdminRole(s.tenant)];
    }
    var left := ds.resources.Keys;
    while left != {}
      invariant left <= ds.resources.Keys
      invariant forall n :: n in names <==>
        (s.tenantAdmin && n == AdminRole(s.tenant)) || exists k :: k in ds.resources && k !in left && GivenFor(ds, s, ds.resources[k], n)
      decreases left
    {
      var k :| k in left;
      var r := ds.resources[k];
      ghost var before := names;
      if s.id == r.owner {
        names := names + [OwnerRole(r)];
      }
      var matched := ResolveReader(ds, s, r);
      if matched {
        names := names + [ReaderRole(r)];
      }
      forall n
        ensures n in names <==> n in before || GivenFor(ds, s, r, n)
      {
      }
      left := left - {k};
    }
  }

  /**
   RBACAdapter's constructor: it fails exactly when some administrator's tenant owns nothing, because the role
   it wants to assign was never defined.
   */
  method BuildRbac(ds: Dataset) returns (ok: bool, engine: Rbac.RoleStore)
    ensures fresh(engine)
    ensures ok <==> AdminsHaveResources(ds)
    ensures ok ==> HasRoles(ds, ds.resources.Keys, engine.roles) && HasAssignments(ds, ds.subjects.Keys, engine.assignments)
  {
    hide HasRoles, HasAssignments;
    engine := new Rbac.RoleStore();
    NoRolesYet(ds, engine.roles);
    var left := ds.resources.Keys;
    while left != {}
      invariant left <= ds.resources.Keys && fresh(engine)
      invariant HasRoles(ds, ds.resources.Keys - left, engine.roles) && engine.assignments == map[]
      decreases left
    {
      var k :| k in left;
      ghost var done := ds.resources.Keys - left;
      DefineFor(ds, engine, done, k);
      left := left - {k};
      assert ds.resources.Keys - left == done + {k};
    }
    assert ds.resources.Keys - left == ds.resources.Keys;
    NoAssignmentsYet(ds, engine.assignments);
    var todo := ds.subjects.Keys;
    while todo != {}
      invariant todo <= ds.subjects.Keys && fresh(engine)
      invariant HasRoles(ds, ds.resources.Keys, engine.roles)
      invariant HasAssignments(ds, ds.subjects.Keys - todo, engine.assignments)
      invariant forall k :: k in ds.subjects && k !in todo && ds.subjects[k].tenantAdmin ==>
        TenantHasResource(ds, ds.subjects[k].tenant)
      decreases todo
    {
      var k :| k in todo;
      var s := ds.subjects[k];
      var names := RolesGiven(ds, s);
      ghost var before, done := engine.assignments, ds.subjects.Keys - todo;
      AssignableIff(ds, engine.roles, s, names);
      if names != [] {
        var accepted := engine.Assign(s.id, names);
        if !accepted {
          return false, engine;
        }
      }
      AssignmentsGrow(ds, done, k, before, engine.assignments, names);
      todo := todo - {k};
      assert ds.subjects.Keys - todo == done + {k};
    }
    assert ds.subjects.Keys - todo == ds.subjects.Keys;
    return true, engine;
  }

  lemma NoRolesYet(ds: Dataset, roles: Rbac.Roles)
    requires roles == map[]
    ensures HasRoles(ds, ds.resources.Keys - ds.resources.Keys, roles)
  {
  }

  lemma NoAssignmentsYet(ds: Dataset, assignments: map<string, set<string>>)
    requires assignments == map[]
    ensures HasAssignments(ds, ds.subjects.Keys - ds.subjects.Keys, assignments)
  {
  }

  /** Only the administrator role can be missing. */
  lemma AssignableIff(ds: Dataset, roles: Rbac.Roles, s: Subject, names: seq<string>)
    requires HasRoles(ds, ds.resources.Keys, roles)
    requires forall n :: n in names <==> Given(ds, s, n)
    ensures (forall n :: n in names ==> n in roles) <==> (s.tenantAdmin ==> TenantHasResource(ds, s.tenant))
  {
    hide Carries, ReadsByGroup;
    if s.tenantAdmin {
      assert AdminRole(s.tenant) in names;
      if Needed(ds, ds.resources.Keys, AdminRole(s.tenant)) {
        var k :| k in ds.resources && NeededFor(ds.resources[k], AdminRole(s.tenant));
        RoleNamesDiffer(ds.resources[k], ds.resources[k], s.tenant, ds.resources[k].tenant);
      }
    }
    forall n | n in names && !(s.tenantAdmin && n == AdminRole(s.tenant))
      ensures n in roles
    {
      var k :| k in ds.resources && GivenFor(ds, s, ds.resources[k], n);
      assert NeededFor(ds.resources[k], n);
    }
    if s.tenantAdmin && TenantHasResource(ds, s.tenant) {
      var k :| k in ds.resources && ds.resources[k].tenant == s.tenant;
      assert NeededFor(ds.resources[k], AdminRole(s.tenant));
    }
  }

  lemma AssignmentsGrow(ds: Dataset, done: set<string>, k: string, before: map<string, set<string>>,
                        after: map<string, set<string>>, names: seq<string>)
    requires k in ds.subjects && HasAssignments(ds, done, before)
    requires forall n :: n in names <==> Given(ds, ds.subjects[k], n)
    requires names == [] ==> after == before
    requires names != [] ==> after == before[ds.subjects[k].id :=
      (if ds.subjects[k].id in before then before[ds.subjects[k].id] else {}) + set n | n in names]
    ensures HasAssignments(ds, done + {k}, after)
  {
    hide Given;
    forall id, name
      ensures GivenById(ds, done + {k}, id, name) <==>
        GivenById(ds, done, id, name) || (id == ds.subjects[k].id && name in names)
    {
    }
  }

  method DecideByRbac(ds: Dataset, engine: Rbac.RoleStore, q: Request) returns (d: Decision)
    requires HasRoles(ds, ds.resources.Keys, engine.roles) && HasAssignments(ds, ds.subjects.Keys, engine.assignments)
    requires WellFormed(ds)
    ensures IsVerdict(ds, q, d)
    ensures d.allowed ==> d.code == "materialized-role"
  {
    if q.subjectId !in ds.subjects || q.resourceId !in ds.resources {
      return Denied("unknown-entity");
    }
    var s, r := ds.subjects[q.subjectId], ds.resources[q.resourceId];
    if s.tenant != r.tenant {
      return Denied("tenant-boundary");
    }
    if r.locked {
      return Denied("explicit-deny");
    }
    if q.action !in ["read", "write"] {
      return Denied("default-deny");
    }
    hide HasRoles, HasAssignments, Permits, Rbac.Can;
    var allowed := engine.IsAllowed(s.id, Permission(r, q.action));
    CanMeansPermits(ds, engine.roles, engine.assignments, q.subjectId, q.resourceId, q.action);
    if allowed {
      return Decision(true, "materialized-role");
    }
    return Denied("default-deny");
  }

  // ----- Well-formed datasets -----

  /** The name would be read as a wildcard, at the start of a permission or at the end of a tuple. */
  predicate Wild(name: string) {
    StartsWith(name + ":", "*:") || EndsWith(":" + name, ":*")
  }

  predicate Plain(name: string) {
    '#' !in name && !Wild(name)
  }

  ghost predicate WellFormed(ds: Dataset) {
    && ds.maxDepth >= 0
    && (forall k :: k in ds.subjects ==> ds.subjects[k].id == k && Plain(k) && '#' !in ds.subjects[k].tenant)
    && (forall k :: k in ds.resources ==> ds.resources[k].id == k && Plain(k) && Plain(ds.resources[k].owner))
    && (forall g :: GroupName(ds, g) ==> '#' !in g)
    && AdminsHaveResources(ds)
  }

  ghost predicate GroupName(ds: Dataset, g: string) {
    || g in ds.groupParents
    || (exists c :: c in ds.groupParents && g in ds.groupParents[c])
    || (exists k :: k in ds.subjects && g in ds.subjects[k].directGroups)
    || (exists k :: k in ds.resources && ds.resources[k].readerGroup == Some(g))
  }

  // ----- RBAC gives the common verdict -----

  /** On plain ids a granted permission matches only itself. */
  lemma OnlyItselfMatches(a: string, x: string, b: string, y: string)
    requires !Wild(a) && ReadOrWrite(x) && ReadOrWrite(y)
    requires Rbac.Matches(a + ":" + x, b + ":" + y)
    ensures a == b && x == y
  {
    hide IndexOf, StartsWith, EndsWith;
    var g, q := a + ":" + x, b + ":" + y;
    assert g[|a|] == ':' && q[|b|] == ':';
    FirstPart(a, x);
    LastPart(a, x);
    JoinSplit(g, ':');
    JoinSplit(q, ':');
    assert g == q;
    SameTail(a, x, b, y);
  }

  // The last part of a permission is never "*".
  lemma LastPart(a: string, x: string)
    requires ReadOrWrite(x)
    ensures ':' in a + ":" + x && After(a + ":" + x, ':') != "*"
  {
    var g := a + ":" + x;
    assert g[|a|] == ':';
    JoinSplit(g, ':');
    var before, after := Before(g, ':'), After(g, ':');
    assert g[|g| - 1] == x[|x| - 1];
    assert (before + [':'] + after)[|g| - 1] == if |after| > 0 then after[|after| - 1] else ':';
  }

  lemma SameTail(a: string, x: string, b: string, y: string)
    requires ReadOrWrite(x) && ReadOrWrite(y) && a + ":" + x == b + ":" + y
    ensures a == b && x == y
  {
    var g := a + ":" + x;
    assert g[|g| - 1] == x[|x| - 1] == y[|y| - 1];
    assert x == y;
    assert g[..|a|] == a && g[..|b|] == b;
  }

  // If the first part of a permission is "*", so is the first part of the id.
  lemma FirstPart(a: string, x: string)
    ensures Before(a + ":" + x, ':') == "*" ==> StartsWith(a + ":", "*:")
  {
    var g := a + ":" + x;
    assert g[|a|] == ':';
    var i := IndexOf(g, ':');
    FirstAtMost(g, ':', |a|);
    assert (a + ":")[..i + 1] == g[..i + 1];
  }

  /** The role is one of this resource's and carries the action on it. */
  ghost predicate Grants(r: Resource, name: string, action: string) {
    name == OwnerRole(r) || name == AdminRole(r.tenant) || (name == ReaderRole(r) && action == "read")
  }

  lemma CarriesGrants(ds: Dataset, rk: string, name: string, g: string, action: string)
    requires WellFormed(ds) && rk in ds.resources && ReadOrWrite(action)
    requires Carries(ds, name, g) && Rbac.Matches(g, Permission(ds.resources[rk], action))
    ensures Grants(ds.resources[rk], name, action)
  {
    hide Rbac.Matches, Wild;
    var k :| k in ds.resources && CarriesFor(ds.resources[k], name, g);
    var x := if g == Permission(ds.resources[k], "read") then "read" else "write";
    OnlyItselfMatches(ds.resources[k].id, x, ds.resources[rk].id, action);
    if name == ReaderRole(ds.resources[k]) {
      RoleNamesDiffer(ds.resources[k], ds.resources[k], ds.resources[k].tenant, "");
    }
  }

  lemma GrantsCarries(ds: Dataset, rk: string, name: string, action: string)
    requires rk in ds.resources && ReadOrWrite(action) && Grants(ds.resources[rk], name, action)
    ensures Carries(ds, name, Permission(ds.resources[rk], action))
  {
    assert CarriesFor(ds.resources[rk], name, Permission(ds.resources[rk], action));
  }

  lemma GivenAndGrants(ds: Dataset, s: Subject, rk: string, action: string)
    requires WellFormed(ds) && rk in ds.resources && ReadOrWrite(action) && s.tenant == ds.resources[rk].tenant
    ensures Permits(ds, s, ds.resources[rk], action) <==> exists name :: Given(ds, s, name) && Grants(ds.resources[rk], name, action)
  {
    hide ReadsByGroup, OwnerRole, ReaderRole, AdminRole, Wild;
    var r := ds.resources[rk];
    if Permits(ds, s, r, action) {
      var name := if s.tenantAdmin then AdminRole(s.tenant) else if s.id == r.owner then OwnerRole(r) else ReaderRole(r);
      assert s.tenantAdmin || GivenFor(ds, s, r, name);
      assert Given(ds, s, name) && Grants(r, name, action);
    }
    if name :| Given(ds, s, name) && Grants(r, name, action) {
      if !(s.tenantAdmin && name == AdminRole(s.tenant)) {
        var k :| k in ds.resources && GivenFor(ds, s, ds.resources[k], name);
        RoleNamesDiffer(r, ds.resources[k], r.tenant, r.tenant);
        RoleNamesDiffer(ds.resources[k], r, r.tenant, r.tenant);
      }
    }
  }

  lemma CanMeansPermits(ds: Dataset, roles: Rbac.Roles, assignments: map<string, set<string>>, sk: string, rk: string, action: string)
    requires WellFormed(ds) && sk in ds.subjects && rk in ds.resources && ReadOrWrite(action)
    requires ds.subjects[sk].tenant == ds.resources[rk].tenant
    requires HasRoles(ds, ds.resources.Keys, roles) && HasAssignments(ds, ds.subjects.Keys, assignments)
    ensures Rbac.Can(roles, if sk in assignments then assignments[sk] else {}, Permission(ds.resources[rk], action))
      <==> Permits(ds, ds.subjects[sk], ds.resources[rk], action)
  {
    hide *;
    var s, r := ds.subjects[sk], ds.resources[rk];
    var held := if sk in assignments then assignments[sk] else {};
    var required := Permission(r, action);
    GivenAndGrants(ds, s, rk, action);
    HeldIsGiven(ds, assignments, sk);
    AssignableRoles(ds, roles, s, rk);
    forall g
      ensures Rbac.Granted(roles, held, g) <==> exists name :: Given(ds, s, name) && Carries(ds, name, g)
    {
      GrantedIffCarried(ds, roles, held, s, g);
    }
    CanSteps(roles, held, required);
    if name :| Given(ds, s, name) && Grants(r, name, action) {
      GrantsCarries(ds, rk, name, action);
    }
    if g :| Rbac.Granted(roles, held, g) && Rbac.Matches(g, required) {
      var name :| Given(ds, s, name) && Carries(ds, name, g);
      CarriesGrants(ds, rk, name, g, action);
    }
  }

  lemma CanSteps(roles: Rbac.Roles, held: set<string>, required: string)
    ensures Rbac.Can(roles, held, required) <==> exists g :: Rbac.Granted(roles, held, g) && Rbac.Matches(g, required)
    ensures Rbac.Matches(required, required)
  {
  }

  lemma GrantedIffCarried(ds: Dataset, roles: Rbac.Roles, held: set<string>, s: Subject, g: string)
    requires RolesRight(ds, roles)
    requires forall n :: Given(ds, s, n) <==> n in held
    requires forall n :: Given(ds, s, n) ==> n in roles
    ensures Rbac.Granted(roles, held, g) <==> exists name :: Given(ds, s, name) && Carries(ds, name, g)
  {
    hide Given, Carries, Rbac.Effective;
    forall n
      ensures Rbac.Effective(roles, held, n) <==> n in held && n in roles
    {
      Rbac.EffectiveWhenFlat(roles, held, n);
    }
  }

  lemma HeldIsGiven(ds: Dataset, assignments: map<string, set<string>>, sk: string)
    requires WellFormed(ds) && sk in ds.subjects && HasAssignments(ds, ds.subjects.Keys, assignments)
    ensures forall n :: Given(ds, ds.subjects[sk], n) <==> sk in assignments && n in assignments[sk]
  {
    hide Given, Wild, GroupName;
    forall n
      ensures GivenById(ds, ds.subjects.Keys, sk, n) <==> Given(ds, ds.subjects[sk], n)
    {
    }
  }

  lemma AssignableRoles(ds: Dataset, roles: Rbac.Roles, s: Subject, rk: string)
    requires HasRoles(ds, ds.resources.Keys, roles) && rk in ds.resources && s.tenant == ds.resources[rk].tenant
    ensures RolesRight(ds, roles) && forall n :: Given(ds, s, n) ==> n in roles
  {
    hide ReadsByGroup, RolesRight;
    forall n | Given(ds, s, n)
      ensures n in roles
    {
      if s.tenantAdmin && n == AdminRole(s.tenant) {
        assert NeededFor(ds.resources[rk], n);
      } else {
        var k :| k in ds.resources && GivenFor(ds, s, ds.resources[k], n);
        assert NeededFor(ds.resources[k], n);
      }
    }
  }

  // ----- ABAC: attribute policies and a precomputed group closure -----

  datatype Attributes = Attributes(subject: Subject, effectiveGroups: set<string>, resource: Resource)

  type AttributePolicy = Abac.Policy<Attributes>

  type AttributeRequest = Abac.Request<Attributes>

  function DenyCrossTenant(): AttributePolicy {
    Abac.Policy("deny-cross-tenant", Abac.Deny, ["*"], ["*"], Some((q: AttributeRequest) =>
      Some(q.attributes.subject.tenant != q.attributes.resource.tenant)))
  }

  function DenyLocked(): AttributePolicy {
    Abac.Policy("deny-locked", Abac.Deny, ["*"], ["*"], Some((q: AttributeRequest) =>
      Some(q.attributes.resource.locked)))
  }

  function AllowTenantAdmin(): AttributePolicy {
    Abac.Policy("allow-tenant-admin", Abac.Allow, ["read", "write"], ["*"], Some((q: AttributeRequest) =>
      Some(q.attributes.subject.tenantAdmin && q.attributes.subject.tenant == q.attributes.resource.tenant)))
  }

  function AllowOwner(): AttributePolicy {
    Abac.Policy("allow-owner", Abac.Allow, ["read", "write"], ["*"], Some((q: AttributeRequest) =>
      Some(q.attributes.subject.id == q.attributes.resource.owner)))
  }

  function AllowReaderGroup(): AttributePolicy {
    Abac.Policy("allow-reader-group", Abac.Allow, ["read"], ["*"], Some((q: AttributeRequest) =>
      Some(q.attributes.resource.readerGroup.Some?
        && q.attributes.resource.readerGroup.value in q.attributes.effectiveGroups)))
  }

  function AbacPolicies(): seq<AttributePolicy> {
    [DenyCrossTenant(), DenyLocked(), AllowTenantAdmin(), AllowOwner(), AllowReaderGroup()]
  }

  /** Groups that occur in the hierarchy, as child or as parent. */
  predicate Known(ds: Dataset, g: string) {
    g in ds.groupParents || exists c :: c in ds.groupParents && g in ds.groupParents[c]
  }

  ghost predicate InEffectiveGroups(ds: Dataset, s: Subject, g: string) {
    g in s.directGroups || (Known(ds, g) && MemberWithin(ds, s.id, g, ds.maxDepth))
  }

  method EffectiveGroups(ds: Dataset, s: Subject) returns (groups: set<string>)
    ensures forall g :: g in groups <==> InEffectiveGroups(ds, s, g)
  {
    hide MemberWithin;
    var known := ds.groupParents.Keys + set c, g | c in ds.groupParents && g in ds.groupParents[c] :: g;
    forall g
      ensures g in known <==> Known(ds, g)
    {
    }
    groups := {};
    var left := known;
    while left != {}
      invariant left <= known
      invariant forall g :: g in groups <==> g in known && g !in left && MemberWithin(ds, s.id, g, ds.maxDepth)
      decreases left
    {
      var g :| g in left;
      var resolution := ResolveGroup(ds, s.id, g);
      if resolution.matched {
        groups := groups + {g};
      }
      left := left - {g};
    }
    groups := groups + s.directGroups;
  }

  /** Unlike the others, this adapter does not treat the empty group name as "no group". */
  ghost predicate PermitsByAttributes(ds: Dataset, s: Subject, r: Resource, action: string) {
    || (ReadOrWrite(action) && (s.tenantAdmin || s.id == r.owner))
    || (action == "read" && r.readerGroup.Some? && InEffectiveGroups(ds, s, r.readerGroup.value))
  }

  ghost predicate IsAbacVerdict(ds: Dataset, q: Request, d: Decision) {
    if q.subjectId !in ds.subjects || q.resourceId !in ds.resources then d == Denied("unknown-entity")
    else
      var s, r := ds.subjects[q.subjectId], ds.resources[q.resourceId];
      if s.tenant != r.tenant then d == Denied("tenant-boundary")
      else if r.locked then d == Denied("explicit-deny")
      else if PermitsByAttributes(ds, s, r, q.action) then d.allowed
      else d == Denied("default-deny")
  }

  lemma PolicyIsOneOf(p: AttributePolicy)
    ensures p in AbacPolicies() <==>
      p == DenyCrossTenant() || p == DenyLocked() || p == AllowTenantAdmin() || p == AllowOwner() || p == AllowReaderGroup()
  {
    hide DenyCrossTenant, DenyLocked, AllowTenantAdmin, AllowOwner, AllowReaderGroup;
    var ps := AbacPolicies();
    assert ps[0] == DenyCrossTenant() && ps[1] == DenyLocked() && ps[2] == AllowTenantAdmin() && ps[3] == AllowOwner()
      && ps[4] == AllowReaderGroup();
  }

  lemma EachFires(q: AttributeRequest)
    ensures Abac.Fires(DenyCrossTenant(), q) <==> q.attributes.subject.tenant != q.attributes.resource.tenant
    ensures Abac.Fires(DenyLocked(), q) <==> q.attributes.resource.locked
    ensures Abac.Fires(AllowTenantAdmin(), q) <==>
      ReadOrWrite(q.action) && q.attributes.subject.tenantAdmin && q.attributes.subject.tenant == q.attributes.resource.tenant
    ensures Abac.Fires(AllowOwner(), q) <==> ReadOrWrite(q.action) && q.attributes.subject.id == q.attributes.resource.owner
    ensures Abac.Fires(AllowReaderGroup(), q) <==>
      q.action == "read" && q.attributes.resource.readerGroup.Some?
      && q.attributes.resource.readerGroup.value in q.attributes.effectiveGroups
  {
    NotAStar();
  }

  lemma EffectsAndNames()
    ensures DenyCrossTenant().effect == DenyLocked().effect == Abac.Deny
    ensures AllowTenantAdmin().effect == AllowOwner().effect == AllowReaderGroup().effect == Abac.Allow
    ensures DenyCrossTenant().name == "deny-cross-tenant" && DenyLocked().name == "deny-locked"
    ensures "deny-cross-tenant" != "deny-locked"
    ensures forall p :: p == AllowTenantAdmin() || p == AllowOwner() || p == AllowReaderGroup() ==>
      p.name != "deny-cross-tenant" && p.name != "deny-locked"
  {
    assert "deny-cross-tenant"[5] == 'c' && "deny-locked"[5] == 'l' && "deny-locked"[0] == 'd' && "deny-cross-tenant"[0] == 'd';
    assert AllowTenantAdmin().name[0] == 'a' && AllowOwner().name[0] == 'a' && AllowReaderGroup().name[0] == 'a';
  }

  lemma DenialsFire(q: AttributeRequest)
    ensures Abac.IsFiring(AbacPolicies(), q, Abac.Deny, "deny-cross-tenant") <==> q.attributes.subject.tenant != q.attributes.resource.tenant
    ensures Abac.IsFiring(AbacPolicies(), q, Abac.Deny, "deny-locked") <==> q.attributes.resource.locked
    ensures Abac.SomeFires(AbacPolicies(), q, Abac.Deny) <==>
      q.attributes.subject.tenant != q.attributes.resource.tenant || q.attributes.resource.locked
    ensures !Abac.IsFiring(AbacPolicies(), q, Abac.Allow, "deny-cross-tenant") && !Abac.IsFiring(AbacPolicies(), q, Abac.Allow, "deny-locked")
  {
    hide AbacPolicies, DenyCrossTenant, DenyLocked, AllowTenantAdmin, AllowOwner, AllowReaderGroup, Abac.Fires;
    EachFires(q);
    EffectsAndNames();
    forall p
      ensures p in AbacPolicies() <==>
        p == DenyCrossTenant() || p == DenyLocked() || p == AllowTenantAdmin() || p == AllowOwner() || p == AllowReaderGroup()
    {
      PolicyIsOneOf(p);
    }
  }

  lemma GrantsFire(q: AttributeRequest)
    ensures Abac.SomeFires(AbacPolicies(), q, Abac.Allow) <==>
      || (ReadOrWrite(q.action) && (q.attributes.subject.id == q.attributes.resource.owner
          || (q.attributes.subject.tenantAdmin && q.attributes.subject.tenant == q.attributes.resource.tenant)))
      || (q.action == "read" && q.attributes.resource.readerGroup.Some?
          && q.attributes.resource.readerGroup.value in q.attributes.effectiveGroups)
  {
    hide AbacPolicies, DenyCrossTenant, DenyLocked, AllowTenantAdmin, AllowOwner, AllowReaderGroup, Abac.Fires;
    EachFires(q);
    EffectsAndNames();
    forall p
      ensures p in AbacPolicies() <==>
        p == DenyCrossTenant() || p == DenyLocked() || p == AllowTenantAdmin() || p == AllowOwner() || p == AllowReaderGroup()
    {
      PolicyIsOneOf(p);
    }
  }

  lemma NotAStar()
    ensures "*" !in ["read", "write"] && "*" !in ["read"]
  {
    assert |"*"| == 1 && |"read"| == 4 && |"write"| == 5;
  }

  method DecideByAbac(ds: Dataset, q: Request) returns (d: Decision)
    ensures IsAbacVerdict(ds, q, d)
    ensures d.allowed ==> d.code == "attribute-policy"
  {
    if q.subjectId !in ds.subjects || q.resourceId !in ds.resources {
      return Denied("unknown-entity");
    }
    hide Known, MemberWithin, Abac.IsFiring, Abac.SomeFires, AbacPolicies, InEffectiveGroups;
    var s, r := ds.subjects[q.subjectId], ds.resources[q.resourceId];
    var groups := EffectiveGroups(ds, s);
    var engine := new Abac.Engine(AbacPolicies());
    var request: AttributeRequest := Abac.Request(Attributes(s, groups, r), "", q.action);
    var decision := engine.Evaluate(request);
    DenialsFire(request);
    GrantsFire(request);
    if decision.effect == Abac.Allow {
      return Decision(true, "attribute-policy");
    }
    if "deny-cross-tenant" in decision.matched {
      return Denied("tenant-boundary");
    }
    if "deny-locked" in decision.matched {
      return Denied("explicit-deny");
    }
    return Denied("default-deny");
  }

  /** The effective groups are the groups the subject is in. */
  lemma EffectiveMeansMember(ds: Dataset, k: string, g: string)
    requires WellFormed(ds) && k in ds.subjects
    ensures InEffectiveGroups(ds, ds.subjects[k], g) <==> MemberWithin(ds, k, g, ds.maxDepth)
  {
    var s := ds.subjects[k];
    if g in s.directGroups {
      assert GroupGraph(ds, g).goal(g);
    } else if MemberWithin(ds, k, g, ds.maxDepth) {
      var from :| from in s.directGroups && BoundedSearch.Within(GroupGraph(ds, g), from, ds.maxDepth);
      var w := BoundedSearch.WalkOfWithin(GroupGraph(ds, g), from, ds.maxDepth);
      var n := |w| - 1;
      assert w[n - 1 + 1] in GroupGraph(ds, g).next(w[n - 1]);
      assert g in ds.groupParents[w[n - 1]];
    }
  }

  /** The subject is in the group with the empty name, and nothing else lets it read. */
  ghost predicate ReadsThroughEmptyGroup(ds: Dataset, q: Request) {
    && q.subjectId in ds.subjects && q.resourceId in ds.resources && q.action == "read"
    && var s, r := ds.subjects[q.subjectId], ds.resources[q.resourceId];
    && s.tenant == r.tenant && !r.locked && !s.tenantAdmin && s.id != r.owner
    && r.readerGroup == Some("") && MemberWithin(ds, s.id, "", ds.maxDepth)
  }

  /** ABAC gives the common verdict exactly when no access hangs on a group with an empty name. */
  lemma AbacAgreesIff(ds: Dataset, q: Request, d: Decision)
    requires WellFormed(ds) && IsAbacVerdict(ds, q, d)
    ensures IsVerdict(ds, q, d) <==> !ReadsThroughEmptyGroup(ds, q)
  {
    hide WellFormed, MemberWithin, InEffectiveGroups;
    if q.subjectId in ds.subjects && q.resourceId in ds.resources {
      var s, r := ds.subjects[q.subjectId], ds.resources[q.resourceId];
      assert s.id == q.subjectId by {
        IdsAreKeys(ds, q.subjectId);
      }
      if r.readerGroup.Some? {
        EffectiveMeansMember(ds, q.subjectId, r.readerGroup.value);
      }
    }
  }

  lemma IdsAreKeys(ds: Dataset, k: string)
    requires WellFormed(ds) && k in ds.subjects
    ensures ds.subjects[k].id == k
  {
  }

  // ----- Cedar and Rego: policies evaluated per request -----

  method DecideByCedar(ds: Dataset, q: Request) returns (d: Decision)
    ensures IsVerdict(ds, q, d)
    ensures d.allowed ==> d.code == "cedar-permit"
  {
    if q.subjectId !in ds.subjects || q.resourceId !in ds.resources {
      return Denied("unknown-entity");
    }
    var s, r := ds.subjects[q.subjectId], ds.resources[q.resourceId];
    var forbids: seq<string> := [];
    if s.tenant != r.tenant {
      forbids := forbids + ["forbid-cross-tenant"];
    }
    if r.locked {
      forbids := forbids + ["forbid-locked"];
    }
    assert "forbid-cross-tenant" != "forbid-locked" by {
      assert |"forbid-cross-tenant"| == 19 && |"forbid-locked"| == 13;
    }
    if forbids != [] {
      return Denied(if "forbid-cross-tenant" in forbids then "tenant-boundary" else "explicit-deny");
    }
    var permits: seq<string> := [];
    if q.action in ["read", "write"] {
      if s.tenantAdmin {
        permits := permits + ["permit-tenant-admin"];
      }
      if s.id == r.owner {
        permits := permits + ["permit-owner"];
      }
    }
    if q.action == "read" {
      var matched := ResolveReader(ds, s, r);
      if matched {
        permits := permits + ["permit-reader-group"];
      }
    }
    if permits != [] {
      return Decision(true, "cedar-permit");
    }
    return Denied("default-deny");
  }

  method DecideByRego(ds: Dataset, q: Request) returns (d: Decision)
    ensures IsVerdict(ds, q, d)
    ensures d.allowed ==> d.code == "rego-permit"
  {
    if q.subjectId !in ds.subjects || q.resourceId !in ds.resources {
      return Denied("unknown-entity");
    }
    var s, r := ds.subjects[q.subjectId], ds.resources[q.resourceId];
    var deny := s.tenant != r.tenant || r.locked;
    var permits: seq<string> := [];
    if q.action in ["read", "write"] && s.tenantAdmin {
      permits := permits + ["permit_tenant_admin"];
    }
    if q.action in ["read", "write"] && s.id == r.owner {
      permits := permits + ["permit_owner"];
    }
    if q.action == "read" {
      var matched := ResolveReader(ds, s, r);
      if matched {
        permits := permits + ["permit_reader_group"];
      }
    }
    if deny {
      return Denied(if s.tenant != r.tenant then "tenant-boundary" else "explicit-deny");
    }
    if permits != [] {
      return Decision(true, "rego-permit");
    }
    return Denied("default-deny");
  }
}
