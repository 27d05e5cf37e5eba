/** The ReBAC decider over the policy dataset (authlab/authz/policy_comparison.py). */
module PolicyRebac {
  import opened BoundedSearch
  import opened GroupResolution
  import opened PolicyAdapters
  import opened Rebac
  import opened Text
  import RebacQueries
  import opened Wrappers

  // ----- The tuples the adapter writes -----

  function UserName(id: string): string { "user:" + id }

  function GroupObject(g: string): string { "group:" + g }

  function GroupMembers(g: string): string { ("group:" + g) + "#" + "member" }

  function TenantObject(t: string): string { "tenant:" + t }

  function DocumentObject(r: Resource): string { "document:" + r.id }

  predicate StatedBySubject(s: Subject, t: Tuple) {
    || (s.tenantAdmin && t == Tuple(TenantObject(s.tenant), "admin", UserName(s.id)))
    || exists g :: g in s.directGroups && t == Tuple(GroupObject(g), "member", UserName(s.id))
  }

  predicate StatedByGroup(ds: Dataset, child: string, t: Tuple)
    requires child in ds.groupParents
  {
    exists p :: p in ds.groupParents[child] && t == Tuple(GroupObject(p), "member", GroupMembers(child))
  }

  predicate StatedByResource(r: Resource, t: Tuple) {
    || t == Tuple(DocumentObject(r), "owner", UserName(r.owner))
    || (r.readerGroup.Some? && r.readerGroup.value != ""
        && t == Tuple(DocumentObject(r), "reader", GroupMembers(r.readerGroup.value)))
  }

  predicate Stated(ds: Dataset, t: Tuple) {
    || (exists k :: k in ds.subjects && StatedBySubject(ds.subjects[k], t))
    || (exists c :: c in ds.groupParents && StatedByGroup(ds, c, t))
    || (exists k :: k in ds.resources && StatedByResource(ds.resources[k], t))
  }

  function DocumentRelations(): map<string, Userset> {
    map["owner" := This,
        "editor" := Union([This, Computed("owner")]),
        "reader" := This,
        "viewer" := Union([This, Computed("editor"), Computed("reader")])]
  }

  function Namespaces(): map<string, map<string, Userset>> {
    map["group" := map["member" := This], "tenant" := map["admin" := This], "document" := DocumentRelations()]
  }

  /** The engine holds exactly the dataset. */
  ghost predicate Represents(ds: Dataset, st: Store) {
    ds.maxDepth == st.maxDepth && st.namespaces == Namespaces() && forall t :: t in st.tuples <==> Stated(ds, t)
  }

  // ----- The relation graph of these tuples -----

  lemma KindOf(kind: string, name: string)
    requires ':' !in kind
    ensures Before(kind + ":" + name, ':') == kind
  {
    SplitJoined(kind, ':', name);
    assert kind + [':'] + name == kind + ":" + name;
  }

  // Objects of different kinds differ, and names can be read off them.
  lemma ObjectsDiffer(g: string, h: string, t: string, u: string, a: Resource, b: Resource)
    ensures GroupObject(g) != TenantObject(t) && GroupObject(g) != DocumentObject(a) && TenantObject(t) != DocumentObject(a)
    ensures GroupObject(g) == GroupObject(h) ==> g == h
    ensures TenantObject(t) == TenantObject(u) ==> t == u
    ensures DocumentObject(a) == DocumentObject(b) ==> a.id == b.id
  {
    assert GroupObject(g)[0] == 'g' && TenantObject(t)[0] == 't' && DocumentObject(a)[0] == 'd';
    assert GroupObject(g)[6..] == g && GroupObject(h)[6..] == h;
    assert TenantObject(t)[7..] == t && TenantObject(u)[7..] == u;
    assert DocumentObject(a)[9..] == a.id && DocumentObject(b)[9..] == b.id;
  }

  // A member userset never names a user, and is no wildcard.
  lemma MembersCoverNobody(g: string, id: string)
    requires '#' !in g
    ensures !Covers(GroupMembers(g), UserName(id))
    ensures '#' in GroupMembers(g) && SubKey(GroupMembers(g)) == (GroupObject(g), "member")
  {
    var c := GroupMembers(g);
    assert c[0] == 'g' && UserName(id)[0] == 'u';
    assert c[|c| - 1] == 'r';
    WildcardEnd(c);
    SplitJoined("group:" + g, '#', "member");
    assert ("group:" + g) + ['#'] + "member" == c;
  }

  lemma WildcardEnd(s: string)
    ensures EndsWith(s, ":*") <==> |s| >= 2 && s[|s| - 2] == ':' && s[|s| - 1] == '*'
  {
    if |s| >= 2 {
      assert s[|s| - 2..] == [s[|s| - 2], s[|s| - 1]];
    }
  }

  lemma UserCoversItself(a: string, b: string)
    requires Plain(a)
    ensures Covers(UserName(a), UserName(b)) <==> a == b
    ensures '#' !in UserName(a)
  {
    hide EndsWith, StartsWith;
    assert UserName(a)[5..] == a && UserName(b)[5..] == b;
    var c, d := UserName(a), ":" + a;
    WildcardEnd(c);
    WildcardEnd(d);
    if |a| == 0 {
      assert c[|c| - 1] == ':';
    } else {
      assert c[|c| - 1] == d[|d| - 1] && c[|c| - 2] == d[|d| - 2];
    }
    assert '#' !in "user:" && '#' !in a;
  }

  lemma DirectGroup(ds: Dataset, st: Store, g: string, u: string)
    requires Represents(ds, st)
    ensures u in Direct(st, GroupObject(g), "member") <==>
      || (exists k :: k in ds.subjects && g in ds.subjects[k].directGroups && u == UserName(ds.subjects[k].id))
      || (exists c :: c in ds.groupParents && g in ds.groupParents[c] && u == GroupMembers(c))
  {
    hide UserName, GroupMembers, GroupObject, TenantObject, DocumentObject;
    var t := Tuple(GroupObject(g), "member", u);
    assert u in Direct(st, GroupObject(g), "member") <==> t in st.tuples by {
      if u in Direct(st, GroupObject(g), "member") {
        var x :| x in st.tuples && x.object_ == GroupObject(g) && x.relation == "member" && x.user == u;
        assert x == t;
      }
    }
    forall k | k in ds.subjects
      ensures StatedBySubject(ds.subjects[k], t) <==> g in ds.subjects[k].directGroups && u == UserName(ds.subjects[k].id)
    {
      var s := ds.subjects[k];
      forall h
        ensures GroupObject(g) == GroupObject(h) ==> g == h
        ensures GroupObject(g) != TenantObject(s.tenant)
      {
        ObjectsDiffer(g, h, s.tenant, s.tenant, Resource("", "", "", None, false), Resource("", "", "", None, false));
      }
    }
    forall c | c in ds.groupParents
      ensures StatedByGroup(ds, c, t) <==> g in ds.groupParents[c] && u == GroupMembers(c)
    {
      forall h
        ensures GroupObject(g) == GroupObject(h) ==> g == h
      {
        ObjectsDiffer(g, h, "", "", Resource("", "", "", None, false), Resource("", "", "", None, false));
      }
    }
    forall k | k in ds.resources
      ensures !StatedByResource(ds.resources[k], t)
    {
      ObjectsDiffer(g, g, "", "", ds.resources[k], ds.resources[k]);
    }
  }

  lemma DirectTenant(ds: Dataset, st: Store, tenant: string, u: string)
    requires Represents(ds, st)
    ensures u in Direct(st, TenantObject(tenant), "admin") <==>
      exists k :: k in ds.subjects && ds.subjects[k].tenantAdmin && ds.subjects[k].tenant == tenant && u == UserName(ds.subjects[k].id)
  {
    hide UserName, GroupMembers, GroupObject, TenantObject, DocumentObject;
    var t := Tuple(TenantObject(tenant), "admin", u);
    assert u in Direct(st, TenantObject(tenant), "admin") <==> t in st.tuples by {
      if u in Direct(st, TenantObject(tenant), "admin") {
        var x :| x in st.tuples && x.object_ == TenantObject(tenant) && x.relation == "admin" && x.user == u;
        assert x == t;
      }
    }
    var nobody := Resource("", "", "", None, false);
    forall g
      ensures GroupObject(g) != TenantObject(tenant)
    {
      ObjectsDiffer(g, g, tenant, tenant, nobody, nobody);
    }
    forall k | k in ds.subjects
      ensures StatedBySubject(ds.subjects[k], t) <==>
        ds.subjects[k].tenantAdmin && ds.subjects[k].tenant == tenant && u == UserName(ds.subjects[k].id)
    {
      ObjectsDiffer("", "", tenant, ds.subjects[k].tenant, nobody, nobody);
    }
    forall k | k in ds.resources
      ensures !StatedByResource(ds.resources[k], t)
    {
      ObjectsDiffer("", "", tenant, tenant, ds.resources[k], ds.resources[k]);
    }
  }

  lemma DirectDocument(ds: Dataset, st: Store, rk: string, relation: string, u: string)
    requires WellFormed(ds) && Represents(ds, st) && rk in ds.resources
    ensures u in Direct(st, DocumentObject(ds.resources[rk]), relation) <==>
      StatedByResource(ds.resources[rk], Tuple(DocumentObject(ds.resources[rk]), relation, u))
  {
    var r := ds.resources[rk];
    hide UserName, GroupMembers, GroupObject, TenantObject, DocumentObject, Wild, GroupName;
    var t := Tuple(DocumentObject(r), relation, u);
    assert u in Direct(st, DocumentObject(r), relation) <==> t in st.tuples by {
      if u in Direct(st, DocumentObject(r), relation) {
        var x :| x in st.tuples && x.object_ == DocumentObject(r) && x.relation == relation && x.user == u;
        assert x == t;
      }
    }
    forall g
      ensures GroupObject(g) != DocumentObject(r)
    {
      ObjectsDiffer(g, g, "", "", r, r);
    }
    forall k | k in ds.subjects
      ensures !StatedBySubject(ds.subjects[k], t)
    {
      ObjectsDiffer("", "", ds.subjects[k].tenant, "", r, r);
    }
    forall k | k in ds.resources && StatedByResource(ds.resources[k], t)
      ensures ds.resources[k] == r
    {
      ObjectsDiffer("", "", "", "", ds.resources[k], r);
    }
  }

  // ----- What each key leads to -----

  lemma RewritesOf(ds: Dataset, st: Store, g: string, tenant: string, r: Resource)
    requires Represents(ds, st)
    ensures RewriteFor(st, GroupObject(g), "member") == This
    ensures RewriteFor(st, TenantObject(tenant), "admin") == This
    ensures RewriteFor(st, DocumentObject(r), "owner") == This
    ensures RewriteFor(st, DocumentObject(r), "reader") == This
    ensures RewriteFor(st, DocumentObject(r), "editor") == Union([This, Computed("owner")])
    ensures RewriteFor(st, DocumentObject(r), "viewer") == Union([This, Computed("editor"), Computed("reader")])
  {
    KindsOf(g, tenant, r);
    hide Before, DocumentObject, GroupObject, TenantObject, Namespaces, DocumentRelations;
    NamesDiffer();
  }

  lemma KindsOf(g: string, tenant: string, r: Resource)
    ensures Before(GroupObject(g), ':') == "group"
    ensures Before(TenantObject(tenant), ':') == "tenant"
    ensures Before(DocumentObject(r), ':') == "document"
  {
    KindOf("group", g);
    KindOf("tenant", tenant);
    KindOf("document", r.id);
    assert "group" + ":" + g == GroupObject(g);
    assert "tenant" + ":" + tenant == TenantObject(tenant);
    assert "document" + ":" + r.id == DocumentObject(r);
  }

  lemma NamesDiffer()
    ensures "group" in Namespaces() && Namespaces()["group"] == map["member" := This]
    ensures "tenant" in Namespaces() && Namespaces()["tenant"] == map["admin" := This]
    ensures "document" in Namespaces() && Namespaces()["document"] == DocumentRelations()
    ensures "owner" in DocumentRelations() && DocumentRelations()["owner"] == This
    ensures "editor" in DocumentRelations() && DocumentRelations()["editor"] == Union([This, Computed("owner")])
    ensures "reader" in DocumentRelations() && DocumentRelations()["reader"] == This
    ensures "viewer" in DocumentRelations() && DocumentRelations()["viewer"] == Union([This, Computed("editor"), Computed("reader")])
  {
    assert "group"[0] == 'g' && "tenant"[0] == 't' && "document"[0] == 'd';
    assert "owner"[0] == 'o' && "editor"[0] == 'e' && "reader"[0] == 'r' && "viewer"[0] == 'v';
  }

  /** Downwards through the hierarchy, from a group to the groups inside it, looking for one the subject is in directly. */
  function DownGraph(ds: Dataset, id: string): Graph<string> {
    Graph(
      (g: string) => set c | c in ds.groupParents && g in ds.groupParents[c],
      (g: string) => id in ds.subjects && g in ds.subjects[id].directGroups)
  }

  function GroupKey(g: string): Key { (GroupObject(g), "member") }

  lemma GroupSteps(ds: Dataset, st: Store, id: string, g: string)
    requires WellFormed(ds) && Represents(ds, st) && id in ds.subjects
    ensures RelationGraph(st, UserName(id)).goal(GroupKey(g)) <==> DownGraph(ds, id).goal(g)
    ensures forall k :: k in RelationGraph(st, UserName(id)).next(GroupKey(g)) <==>
      exists c :: c in DownGraph(ds, id).next(g) && k == GroupKey(c)
  {
    hide Represents, WellFormed, Covers, SubKey, Direct, RewriteFor, UserName, GroupObject, GroupMembers;
    var user, key := UserName(id), GroupKey(g);
    RewritesOf(ds, st, g, "", Resource("", "", "", None, false));
    forall u
      ensures u in Direct(st, key.0, key.1) <==>
        || (exists k :: k in ds.subjects && g in ds.subjects[k].directGroups && u == UserName(ds.subjects[k].id))
        || (exists c :: c in ds.groupParents && g in ds.groupParents[c] && u == GroupMembers(c))
    {
      DirectGroup(ds, st, g, u);
    }
    forall k | k in ds.subjects
      ensures '#' !in UserName(ds.subjects[k].id) && (Covers(UserName(ds.subjects[k].id), user) <==> k == id)
    {
      PlainSubject(ds, k);
      UserCoversItself(ds.subjects[k].id, id);
    }
    forall c | c in ds.groupParents
      ensures !Covers(GroupMembers(c), user) && '#' in GroupMembers(c) && SubKey(GroupMembers(c)) == GroupKey(c)
    {
      PlainGroup(ds, c);
      MembersCoverNobody(c, id);
    }
    forall c | c in ds.groupParents && g in ds.groupParents[c]
      ensures GroupKey(c) in RelationGraph(st, user).next(key)
    {
      assert GroupMembers(c) in Direct(st, key.0, key.1);
      assert SubKey(GroupMembers(c)) in Refers(st, This, key);
    }
  }

  lemma PlainSubject(ds: Dataset, k: string)
    requires WellFormed(ds) && k in ds.subjects
    ensures ds.subjects[k].id == k && Plain(k)
  {
  }

  lemma PlainGroup(ds: Dataset, g: string)
    requires WellFormed(ds) && GroupName(ds, g)
    ensures '#' !in g
  {
  }

  /** Searching the tuples below a group is searching the hierarchy downwards. */
  lemma {:induction false} GroupSearch(ds: Dataset, st: Store, id: string, g: string, fuel: int)
    requires WellFormed(ds) && Represents(ds, st) && id in ds.subjects
    ensures Within(RelationGraph(st, UserName(id)), GroupKey(g), fuel) <==> Within(DownGraph(ds, id), g, fuel)
    decreases fuel
  {
    hide RelationGraph, DownGraph, WellFormed, Represents, GroupKey;
    if fuel >= 0 {
      GroupSteps(ds, st, id, g);
      forall c | c in DownGraph(ds, id).next(g)
        ensures Within(RelationGraph(st, UserName(id)), GroupKey(c), fuel - 1) <==> Within(DownGraph(ds, id), c, fuel - 1)
      {
        GroupSearch(ds, st, id, c, fuel - 1);
      }
      var down, tuples := DownGraph(ds, id), RelationGraph(st, UserName(id));
      if c :| c in down.next(g) && Within(down, c, fuel - 1) {
        assert GroupKey(c) in tuples.next(GroupKey(g));
      }
      if k :| k in tuples.next(GroupKey(g)) && Within(tuples, k, fuel - 1) {
        var c :| c in down.next(g) && k == GroupKey(c);
      }
    }
  }

  // ----- Searching down from a group is searching up to it -----

  lemma {:induction false} UpOnward(ds: Dataset, from: string, g: string, parent: string, fuel: int)
    requires Within(GroupGraph(ds, g), from, fuel) && parent in Parents(ds, g)
    ensures Within(GroupGraph(ds, parent), from, fuel + 1)
    decreases fuel
  {
    var up := GroupGraph(ds, parent);
    if from == g {
      assert Within(up, parent, fuel + 1 - 1);
      assert parent in up.next(from);
    } else {
      var m :| m in Parents(ds, from) && Within(GroupGraph(ds, g), m, fuel - 1);
      UpOnward(ds, m, g, parent, fuel - 1);
      assert m in up.next(from);
    }
  }

  lemma {:induction false} UpOfDown(ds: Dataset, id: string, g: string, fuel: int)
    requires id in ds.subjects && Within(DownGraph(ds, id), g, fuel)
    ensures MemberWithin(ds, id, g, fuel)
    decreases fuel
  {
    if g in ds.subjects[id].directGroups {
      assert Within(GroupGraph(ds, g), g, fuel);
    } else {
      var c :| c in DownGraph(ds, id).next(g) && Within(DownGraph(ds, id), c, fuel - 1);
      UpOfDown(ds, id, c, fuel - 1);
      var from :| from in ds.subjects[id].directGroups && Within(GroupGraph(ds, c), from, fuel - 1);
      UpOnward(ds, from, c, g, fuel - 1);
    }
  }

  lemma {:induction false} DownOfUp(ds: Dataset, id: string, from: string, g: string, up: int, down: int)
    requires Within(GroupGraph(ds, g), from, up) && Within(DownGraph(ds, id), from, down)
    ensures Within(DownGraph(ds, id), g, up + down)
    decreases up
  {
    var graph := DownGraph(ds, id);
    if from == g {
      WithinMonotone(graph, graph, g, down, up + down);
    } else {
      var m :| m in Parents(ds, from) && Within(GroupGraph(ds, g), m, up - 1);
      assert from in graph.next(m) && Within(graph, from, down + 1 - 1);
      DownOfUp(ds, id, m, g, up - 1, down + 1);
    }
  }

  /** The two directions find the same memberships at the same depth. */
  lemma DownIsUp(ds: Dataset, id: string, g: string, fuel: int)
    requires id in ds.subjects
    ensures Within(DownGraph(ds, id), g, fuel) <==> MemberWithin(ds, id, g, fuel)
  {
    if Within(DownGraph(ds, id), g, fuel) {
      UpOfDown(ds, id, g, fuel);
    }
    if MemberWithin(ds, id, g, fuel) {
      var from :| from in ds.subjects[id].directGroups && Within(GroupGraph(ds, g), from, fuel);
      assert Within(DownGraph(ds, id), from, 0);
      DownOfUp(ds, id, from, g, fuel, 0);
    }
  }

  // ----- The keys of a document and of a tenant -----

  function DocumentKey(r: Resource, relation: string): Key { (DocumentObject(r), relation) }

  lemma ThisSteps(st: Store, key: Key, user: string)
    requires RewriteFor(st, key.0, key.1) == This
    ensures RelationGraph(st, user).goal(key) <==> exists u :: u in Direct(st, key.0, key.1) && Covers(u, user)
    ensures RelationGraph(st, user).next(key) == set u | u in Direct(st, key.0, key.1) && '#' in u :: SubKey(u)
  {
    hide Direct, Covers, SubKey, RewriteFor;
  }

  lemma TenantSteps(ds: Dataset, st: Store, id: string, tenant: string)
    requires WellFormed(ds) && Represents(ds, st) && id in ds.subjects
    ensures RelationGraph(st, UserName(id)).goal((TenantObject(tenant), "admin")) <==>
      ds.subjects[id].tenantAdmin && ds.subjects[id].tenant == tenant
    ensures RelationGraph(st, UserName(id)).next((TenantObject(tenant), "admin")) == {}
  {
    hide Represents, WellFormed, Covers, SubKey, Direct, RewriteFor, UserName, GroupObject, GroupMembers, TenantObject, RelationGraph;
    var user, key := UserName(id), (TenantObject(tenant), "admin");
    RewritesOf(ds, st, "", tenant, Resource("", "", "", None, false));
    ThisSteps(st, key, user);
    forall u
      ensures u in Direct(st, key.0, key.1) <==>
        exists k :: k in ds.subjects && ds.subjects[k].tenantAdmin && ds.subjects[k].tenant == tenant && u == UserName(ds.subjects[k].id)
    {
      DirectTenant(ds, st, tenant, u);
    }
    forall k | k in ds.subjects
      ensures '#' !in UserName(ds.subjects[k].id) && (Covers(UserName(ds.subjects[k].id), user) <==> k == id)
    {
      PlainSubject(ds, k);
      UserCoversItself(ds.subjects[k].id, id);
    }
  }

  lemma OwnerSteps(ds: Dataset, st: Store, id: string, rk: string)
    requires WellFormed(ds) && Represents(ds, st) && rk in ds.resources
    ensures RelationGraph(st, UserName(id)).goal(DocumentKey(ds.resources[rk], "owner")) <==> id == ds.resources[rk].owner
    ensures RelationGraph(st, UserName(id)).next(DocumentKey(ds.resources[rk], "owner")) == {}
  {
    hide Represents, Covers, SubKey, Direct, RewriteFor, UserName, GroupObject, GroupMembers, RelationGraph, Wild, DocumentObject;
    var user, r := UserName(id), ds.resources[rk];
    var key := DocumentKey(r, "owner");
    RewritesOf(ds, st, "", "", r);
    ThisSteps(st, key, user);
    assert "owner"[0] == 'o' && "reader"[0] == 'r';
    forall u
      ensures u in Direct(st, key.0, key.1) <==> u == UserName(r.owner)
    {
      DirectDocument(ds, st, rk, "owner", u);
    }
    UserCoversItself(r.owner, id);
  }

  /** The group a document is shared with. */
  predicate SharedWith(r: Resource, g: string) {
    r.readerGroup == Some(g) && g != ""
  }

  lemma ReaderSteps(ds: Dataset, st: Store, id: string, rk: string)
    requires WellFormed(ds) && Represents(ds, st) && rk in ds.resources
    ensures !RelationGraph(st, UserName(id)).goal(DocumentKey(ds.resources[rk], "reader"))
    ensures forall k :: k in RelationGraph(st, UserName(id)).next(DocumentKey(ds.resources[rk], "reader")) <==>
      exists g :: SharedWith(ds.resources[rk], g) && k == GroupKey(g)
  {
    hide Represents, Covers, SubKey, Direct, RewriteFor, UserName, GroupObject, GroupMembers, RelationGraph, Wild, DocumentObject;
    var user, r := UserName(id), ds.resources[rk];
    var key := DocumentKey(r, "reader");
    RewritesOf(ds, st, "", "", r);
    ThisSteps(st, key, user);
    assert "owner"[0] == 'o' && "reader"[0] == 'r';
    forall u
      ensures u in Direct(st, key.0, key.1) <==> exists g :: SharedWith(r, g) && u == GroupMembers(g)
    {
      DirectDocument(ds, st, rk, "reader", u);
      if SharedWith(r, if r.readerGroup.Some? then r.readerGroup.value else "") {
      }
    }
    forall g | SharedWith(r, g)
      ensures !Covers(GroupMembers(g), user) && '#' in GroupMembers(g) && SubKey(GroupMembers(g)) == GroupKey(g)
    {
      PlainGroup(ds, g);
      MembersCoverNobody(g, id);
    }
    if SharedWith(r, if r.readerGroup.Some? then r.readerGroup.value else "") {
      assert GroupMembers(r.readerGroup.value) in Direct(st, key.0, key.1);
      assert SubKey(GroupMembers(r.readerGroup.value)) in RelationGraph(st, user).next(key);
    }
  }

  lemma NothingDirect(ds: Dataset, st: Store, rk: string, relation: string)
    requires WellFormed(ds) && Represents(ds, st) && rk in ds.resources && relation != "owner" && relation != "reader"
    ensures Direct(st, DocumentObject(ds.resources[rk]), relation) == {}
  {
    hide Represents, Direct, WellFormed;
    if u :| u in Direct(st, DocumentObject(ds.resources[rk]), relation) {
      DirectDocument(ds, st, rk, relation, u);
    }
  }

  lemma EditorSteps(ds: Dataset, st: Store, id: string, rk: string)
    requires WellFormed(ds) && Represents(ds, st) && rk in ds.resources
    ensures !RelationGraph(st, UserName(id)).goal(DocumentKey(ds.resources[rk], "editor"))
    ensures RelationGraph(st, UserName(id)).next(DocumentKey(ds.resources[rk], "editor")) == {DocumentKey(ds.resources[rk], "owner")}
  {
    hide Represents, WellFormed, Covers, SubKey, Direct, RewriteFor, UserName, DocumentObject;
    var key := DocumentKey(ds.resources[rk], "editor");
    RewritesOf(ds, st, "", "", ds.resources[rk]);
    assert "owner"[0] == 'o' && "editor"[0] == 'e' && "reader"[0] == 'r';
    NothingDirect(ds, st, rk, "editor");
    TwoRefer(st, This, Computed("owner"), key);
    TwoHit(st, This, Computed("owner"), key, UserName(id));
  }

  lemma ViewerSteps(ds: Dataset, st: Store, id: string, rk: string)
    requires WellFormed(ds) && Represents(ds, st) && rk in ds.resources
    ensures !RelationGraph(st, UserName(id)).goal(DocumentKey(ds.resources[rk], "viewer"))
    ensures RelationGraph(st, UserName(id)).next(DocumentKey(ds.resources[rk], "viewer")) ==
      {DocumentKey(ds.resources[rk], "editor"), DocumentKey(ds.resources[rk], "reader")}
  {
    hide Represents, WellFormed, Covers, SubKey, Direct, RewriteFor, UserName, DocumentObject;
    var key := DocumentKey(ds.resources[rk], "viewer");
    RewritesOf(ds, st, "", "", ds.resources[rk]);
    assert "owner"[0] == 'o' && "viewer"[0] == 'v' && "reader"[0] == 'r';
    NothingDirect(ds, st, rk, "viewer");
    ThreeRefer(st, This, Computed("editor"), Computed("reader"), key);
    ThreeHit(st, This, Computed("editor"), Computed("reader"), key, UserName(id));
  }

  lemma TwoRefer(st: Store, a: Userset, b: Userset, key: Key)
    ensures Refers(st, Union([a, b]), key) == Refers(st, a, key) + Refers(st, b, key)
  {
    assert [a, b][0] == a && [a, b][1] == b;
  }

  lemma TwoHit(st: Store, a: Userset, b: Userset, key: Key, user: string)
    ensures Hits(st, Union([a, b]), key, user) <==> Hits(st, a, key, user) || Hits(st, b, key, user)
  {
    assert [a, b][0] == a && [a, b][1] == b;
  }

  lemma ThreeRefer(st: Store, a: Userset, b: Userset, c: Userset, key: Key)
    ensures Refers(st, Union([a, b, c]), key) == Refers(st, a, key) + Refers(st, b, key) + Refers(st, c, key)
  {
    assert [a, b, c][0] == a && [a, b, c][1] == b && [a, b, c][2] == c;
  }

  lemma ThreeHit(st: Store, a: Userset, b: Userset, c: Userset, key: Key, user: string)
    ensures Hits(st, Union([a, b, c]), key, user) <==> Hits(st, a, key, user) || Hits(st, b, key, user) || Hits(st, c, key, user)
  {
    assert [a, b, c][0] == a && [a, b, c][1] == b && [a, b, c][2] == c;
  }

  // ----- What the engine answers -----

  /** An owner is found two steps below viewer and one below editor; a reader group two steps below viewer. */
  ghost predicate ReadsDocument(ds: Dataset, id: string, r: Resource) {
    ds.maxDepth >= 2 && (id == r.owner || exists g :: SharedWith(r, g) && MemberWithin(ds, id, g, ds.maxDepth - 2))
  }

  lemma AdminCheck(ds: Dataset, st: Store, id: string, tenant: string)
    requires WellFormed(ds) && Represents(ds, st) && id in ds.subjects
    ensures Check(st, TenantObject(tenant), "admin", UserName(id), 0, {}) <==>
      ds.subjects[id].tenantAdmin && ds.subjects[id].tenant == tenant
  {
    hide *;
    CheckIsBoundedSearch(st, (TenantObject(tenant), "admin"), UserName(id));
    TenantSteps(ds, st, id, tenant);
    SameDepth(ds, st);
    OneStep(RelationGraph(st, UserName(id)), (TenantObject(tenant), "admin"), st.maxDepth);
  }

  lemma SameDepth(ds: Dataset, st: Store)
    requires Represents(ds, st)
    ensures st.maxDepth == ds.maxDepth
  {
  }

  lemma OneStep<N>(g: Graph<N>, n: N, fuel: int)
    ensures Within(g, n, fuel) <==> fuel >= 0 && (g.goal(n) || exists m :: m in g.next(n) && Within(g, m, fuel - 1))
  {
  }

  lemma OwnerSearch(ds: Dataset, st: Store, id: string, rk: string, fuel: int)
    requires WellFormed(ds) && Represents(ds, st) && rk in ds.resources
    ensures Within(RelationGraph(st, UserName(id)), DocumentKey(ds.resources[rk], "editor"), fuel) <==>
      fuel >= 1 && id == ds.resources[rk].owner
  {
    hide *;
    var g, r := RelationGraph(st, UserName(id)), ds.resources[rk];
    OwnerSteps(ds, st, id, rk);
    EditorSteps(ds, st, id, rk);
    OneStep(g, DocumentKey(r, "editor"), fuel);
    OneStep(g, DocumentKey(r, "owner"), fuel - 1);
  }

  lemma ReaderSearch(ds: Dataset, st: Store, id: string, rk: string, fuel: int)
    requires WellFormed(ds) && Represents(ds, st) && rk in ds.resources && id in ds.subjects
    ensures Within(RelationGraph(st, UserName(id)), DocumentKey(ds.resources[rk], "reader"), fuel) <==>
      fuel >= 1 && exists g :: SharedWith(ds.resources[rk], g) && MemberWithin(ds, id, g, fuel - 1)
  {
    hide *;
    var graph, r := RelationGraph(st, UserName(id)), ds.resources[rk];
    var key := DocumentKey(r, "reader");
    ReaderSteps(ds, st, id, rk);
    OneStep(graph, key, fuel);
    forall g
      ensures Within(graph, GroupKey(g), fuel - 1) <==> MemberWithin(ds, id, g, fuel - 1)
      ensures MemberWithin(ds, id, g, fuel - 1) ==> fuel >= 1
    {
      GroupSearch(ds, st, id, g, fuel - 1);
      DownIsUp(ds, id, g, fuel - 1);
      OneStep(graph, GroupKey(g), fuel - 1);
    }
    if g :| SharedWith(r, g) && MemberWithin(ds, id, g, fuel - 1) {
      assert GroupKey(g) in graph.next(key);
    }
  }

  lemma EditorCheck(ds: Dataset, st: Store, id: string, rk: string)
    requires WellFormed(ds) && Represents(ds, st) && rk in ds.resources
    ensures Check(st, DocumentObject(ds.resources[rk]), "editor", UserName(id), 0, {}) <==>
      ds.maxDepth >= 1 && id == ds.resources[rk].owner
  {
    hide Check, Within, RelationGraph, WellFormed, Represents;
    CheckIsBoundedSearch(st, DocumentKey(ds.resources[rk], "editor"), UserName(id));
    SameDepth(ds, st);
    OwnerSearch(ds, st, id, rk, st.maxDepth);
  }

  lemma ViewerCheck(ds: Dataset, st: Store, id: string, rk: string)
    requires WellFormed(ds) && Represents(ds, st) && rk in ds.resources && id in ds.subjects
    ensures Check(st, DocumentObject(ds.resources[rk]), "viewer", UserName(id), 0, {}) <==> ReadsDocument(ds, id, ds.resources[rk])
  {
    hide Check, Within, RelationGraph, WellFormed, Represents, MemberWithin, SharedWith, DocumentObject;
    var g, r := RelationGraph(st, UserName(id)), ds.resources[rk];
    var key := DocumentKey(r, "viewer");
    CheckIsBoundedSearch(st, key, UserName(id));
    SameDepth(ds, st);
    ViewerSteps(ds, st, id, rk);
    OneStep(g, key, st.maxDepth);
    OwnerSearch(ds, st, id, rk, st.maxDepth - 1);
    ReaderSearch(ds, st, id, rk, st.maxDepth - 1);
  }

  // ----- The adapter -----

  /** write of one textual tuple. */
  method WriteText(engine: RebacQueries.Engine, t: Tuple)
    modifies engine`tuples
    ensures '#' !in t.object_ && '@' !in t.relation ==> engine.tuples == old(engine.tuples) + {t}
  {
    hide Check;
    var item := RebacQueries.Written(RebacQueries.Show(t));
    if '#' !in t.object_ && '@' !in t.relation {
      RebacQueries.ParseShow(t);
      assert RebacQueries.TupleOf(item) == RebacQueries.Parsed(t);
    }
    var ok := engine.Write([item]);
    assert RebacQueries.Given([item][1..]) == {};
  }

  lemma PlainObjects(g: string, tenant: string, r: Resource)
    ensures '#' !in g ==> '#' !in GroupObject(g)
    ensures '#' !in tenant ==> '#' !in TenantObject(tenant)
    ensures '#' !in r.id ==> '#' !in DocumentObject(r)
    ensures '@' !in "member" && '@' !in "admin" && '@' !in "owner" && '@' !in "reader"
  {
    assert '#' !in "group:" && '#' !in "tenant:" && '#' !in "document:";
  }

  method WriteSubject(engine: RebacQueries.Engine, s: Subject)
    modifies engine`tuples
    ensures '#' !in s.tenant && (forall g :: g in s.directGroups ==> '#' !in g) ==>
      forall t :: t in engine.tuples <==> t in old(engine.tuples) || StatedBySubject(s, t)
  {
    hide GroupObject, TenantObject, UserName;
    ghost var before, plain := engine.tuples, '#' !in s.tenant && forall g :: g in s.directGroups ==> '#' !in g;
    PlainObjects("", s.tenant, Resource("", "", "", None, false));
    var left := s.directGroups;
    while left != {}
      invariant left <= s.directGroups
      invariant plain ==> forall t :: t in engine.tuples <==>
        t in before || exists g :: g in s.directGroups && g !in left && t == Tuple(GroupObject(g), "member", UserName(s.id))
      decreases left
    {
      var g :| g in left;
      PlainObjects(g, "", Resource("", "", "", None, false));
      WriteText(engine, Tuple(GroupObject(g), "member", UserName(s.id)));
      left := left - {g};
    }
    if s.tenantAdmin {
      WriteText(engine, Tuple(TenantObject(s.tenant), "admin", UserName(s.id)));
    }
  }

  method WriteParents(engine: RebacQueries.Engine, ds: Dataset, child: string)
    requires child in ds.groupParents
    modifies engine`tuples
    ensures (forall p :: p in ds.groupParents[child] ==> '#' !in p) ==>
      forall t :: t in engine.tuples <==> t in old(engine.tuples) || StatedByGroup(ds, child, t)
  {
    hide GroupObject, GroupMembers;
    ghost var before, plain := engine.tuples, forall p :: p in ds.groupParents[child] ==> '#' !in p;
    var left := ds.groupParents[child];
    while left != {}
      invariant left <= ds.groupParents[child]
      invariant plain ==> forall t :: t in engine.tuples <==>
        t in before || exists p :: p in ds.groupParents[child] && p !in left && t == Tuple(GroupObject(p), "member", GroupMembers(child))
      decreases left
    {
      var p :| p in left;
      PlainObjects(p, "", Resource("", "", "", None, false));
      WriteText(engine, Tuple(GroupObject(p), "member", GroupMembers(child)));
      left := left - {p};
    }
  }

  method WriteResource(engine: RebacQueries.Engine, r: Resource)
    modifies engine`tuples
    ensures '#' !in r.id ==> forall t :: t in engine.tuples <==> t in old(engine.tuples) || StatedByResource(r, t)
  {
    hide DocumentObject, GroupMembers, UserName;
    PlainObjects("", "", r);
    WriteText(engine, Tuple(DocumentObject(r), "owner", UserName(r.owner)));
    if r.readerGroup.Some? && r.readerGroup.value != "" {
      WriteText(engine, Tuple(DocumentObject(r), "reader", GroupMembers(r.readerGroup.value)));
    }
  }

  method DefineNamespaces(engine: RebacQueries.Engine)
    requires engine.namespaces == map[]
    modifies engine`namespaces
    ensures engine.namespaces == Namespaces()
  {
    assert "group"[0] == 'g' && "tenant"[0] == 't' && "document"[0] == 'd';
    engine.Relation("group", "member", This);
    engine.Relation("tenant", "admin", This);
    engine.Relation("document", "owner", This);
    engine.Relation("document", "editor", Union([This, Computed("owner")]));
    engine.Relation("document", "reader", This);
    engine.Relation("document", "viewer", Union([This, Computed("editor"), Computed("reader")]));
  }

  /** ReBACAdapter's constructor: a negative depth is refused; on plain names the tuples are exactly the dataset. */
  method BuildRebac(ds: Dataset) returns (ok: bool, engine: RebacQueries.Engine)
    ensures fresh(engine)
    ensures ok <==> ds.maxDepth >= 0
    ensures WellFormed(ds) ==> Represents(ds, engine.State())
  {
    hide WellFormed, StatedBySubject, StatedByGroup, StatedByResource, Namespaces;
    engine := new RebacQueries.Engine(if ds.maxDepth >= 0 then ds.maxDepth else 0);
    if ds.maxDepth < 0 {
      if WellFormed(ds) {
        DepthIsNat(ds);
      }
      return false, engine;
    }
    DefineNamespaces(engine);
    var subjects := ds.subjects.Keys;
    while subjects != {}
      invariant subjects <= ds.subjects.Keys && fresh(engine) && engine.namespaces == Namespaces()
      invariant WellFormed(ds) ==> forall t :: t in engine.tuples <==>
        exists k :: k in ds.subjects && k !in subjects && StatedBySubject(ds.subjects[k], t)
      decreases subjects
    {
      var k :| k in subjects;
      if WellFormed(ds) {
        PlainForSubject(ds, k);
      }
      WriteSubject(engine, ds.subjects[k]);
      subjects := subjects - {k};
    }
    ghost var first := engine.tuples;
    var groups := ds.groupParents.Keys;
    while groups != {}
      invariant groups <= ds.groupParents.Keys && fresh(engine) && engine.namespaces == Namespaces()
      invariant WellFormed(ds) ==> forall t :: t in engine.tuples <==>
        t in first || exists c :: c in ds.groupParents && c !in groups && StatedByGroup(ds, c, t)
      decreases groups
    {
      var c :| c in groups;
      if WellFormed(ds) {
        PlainForGroup(ds, c);
      }
      WriteParents(engine, ds, c);
      groups := groups - {c};
    }
    ghost var second := engine.tuples;
    var resources := ds.resources.Keys;
    while resources != {}
      invariant resources <= ds.resources.Keys && fresh(engine) && engine.namespaces == Namespaces()
      invariant WellFormed(ds) ==> forall t :: t in engine.tuples <==>
        t in second || exists k :: k in ds.resources && k !in resources && StatedByResource(ds.resources[k], t)
      decreases resources
    {
      var k :| k in resources;
      if WellFormed(ds) {
        PlainForResource(ds, k);
      }
      WriteResource(engine, ds.resources[k]);
      resources := resources - {k};
    }
    return true, engine;
  }

  lemma DepthIsNat(ds: Dataset)
    requires WellFormed(ds)
    ensures ds.maxDepth >= 0
  {
  }

  lemma PlainForSubject(ds: Dataset, k: string)
    requires WellFormed(ds) && k in ds.subjects
    ensures '#' !in ds.subjects[k].tenant && forall g :: g in ds.subjects[k].directGroups ==> '#' !in g
  {
    forall g | g in ds.subjects[k].directGroups
      ensures '#' !in g
    {
      PlainGroup(ds, g);
    }
  }

  lemma PlainForGroup(ds: Dataset, c: string)
    requires WellFormed(ds) && c in ds.groupParents
    ensures forall p :: p in ds.groupParents[c] ==> '#' !in p
  {
    forall p | p in ds.groupParents[c]
      ensures '#' !in p
    {
      PlainGroup(ds, p);
    }
  }

  lemma PlainForResource(ds: Dataset, k: string)
    requires WellFormed(ds) && k in ds.resources
    ensures '#' !in ds.resources[k].id
  {
  }

  ghost predicate PermitsByTuples(ds: Dataset, s: Subject, r: Resource, action: string) {
    || s.tenantAdmin
    || (action == "write" && ds.maxDepth >= 1 && s.id == r.owner)
    || (action == "read" && ReadsDocument(ds, s.id, r))
  }

  ghost predicate IsRebacVerdict(ds: Dataset, q: Request, d: Decision) {
    if q.subjectId !in ds.subjects || q.resourceId !in ds.resources then d == Denied("unknown-entity")
    else
      var s, r := ds.subjects[q.subjectId], ds.resources[q.resourceId];
      if s.tenant != r.tenant then d == Denied("tenant-boundary")
      else if r.locked then d == Denied("explicit-deny")
      else if ReadOrWrite(q.action) && PermitsByTuples(ds, s, r, q.action) then d.allowed
      else d == Denied("default-deny")
  }

  method DecideByRebac(ds: Dataset, engine: RebacQueries.Engine, q: Request) returns (d: Decision)
    requires WellFormed(ds) && Represents(ds, engine.State())
    ensures IsRebacVerdict(ds, q, d)
    ensures d.allowed ==> d.code == "relationship-path"
  {
    hide Check, WellFormed, Represents, ReadsDocument, UserName, TenantObject, DocumentObject;
    if q.subjectId !in ds.subjects || q.resourceId !in ds.resources {
      return Denied("unknown-entity");
    }
    var s, r := ds.subjects[q.subjectId], ds.resources[q.resourceId];
    PlainSubject(ds, q.subjectId);
    if s.tenant != r.tenant {
      return Denied("tenant-boundary");
    }
    if r.locked {
      return Denied("explicit-deny");
    }
    if q.action !in ["read", "write"] {
      return Denied("default-deny");
    }
    var st, user := engine.State(), UserName(s.id);
    AdminCheck(ds, st, s.id, s.tenant);
    if Check(st, TenantObject(s.tenant), "admin", user, 0, {}) {
      return Decision(true, "relationship-path");
    }
    var relation := if q.action == "read" then "viewer" else "editor";
    ViewerCheck(ds, st, s.id, q.resourceId);
    EditorCheck(ds, st, s.id, q.resourceId);
    if Check(st, DocumentObject(r), relation, user, 0, {}) {
      return Decision(true, "relationship-path");
    }
    return Denied("default-deny");
  }
}
