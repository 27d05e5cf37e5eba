/** When the five deciders give one answer (authlab/authz/policy_comparison.py). */
module PolicyParity {
  import opened BoundedSearch
  import opened GroupResolution
  import opened PolicyAdapters
  import opened PolicyRebac
  import Rbac
  import RebacQueries
  import opened Text
  import opened Wrappers

  // ----- ReBAC against the other four -----

  /** The request is decided by a relationship, and not by a guard or by being administrator. */
  ghost predicate Relational(ds: Dataset, q: Request) {
    && q.subjectId in ds.subjects && q.resourceId in ds.resources && ReadOrWrite(q.action)
    && var s, r := ds.subjects[q.subjectId], ds.resources[q.resourceId];
    s.tenant == r.tenant && !r.locked && !s.tenantAdmin
  }

  /** The subject reaches the reader group, but only in the last two levels of depth. */
  ghost predicate OnlyDeep(ds: Dataset, s: Subject, r: Resource) {
    ReadsByGroup(ds, s, r) && !(ds.maxDepth >= 2 && MemberWithin(ds, s.id, r.readerGroup.value, ds.maxDepth - 2))
  }

  /** ReBAC spends one level to reach an owner from "editor" and two to reach an owner or a group from "viewer". */
  ghost predicate OutOfDepth(ds: Dataset, q: Request) {
    && Relational(ds, q)
    && var s, r := ds.subjects[q.subjectId], ds.resources[q.resourceId];
    if s.id == r.owner then (if q.action == "write" then ds.maxDepth < 1 else ds.maxDepth < 2)
    else q.action == "read" && OnlyDeep(ds, s, r)
  }

  /** ReBAC never allows what the other models deny, and denies it for the same reason. */
  lemma RebacNeverAllowsMore(ds: Dataset, q: Request, common: Decision, rebac: Decision)
    requires WellFormed(ds) && IsVerdict(ds, q, common) && IsRebacVerdict(ds, q, rebac)
    ensures rebac.allowed ==> common.allowed
    ensures !common.allowed ==> rebac == common
  {
    hide MemberWithin, WellFormed;
    if q.subjectId in ds.subjects && q.resourceId in ds.resources {
      var s, r := ds.subjects[q.subjectId], ds.resources[q.resourceId];
      assert s.id == q.subjectId by {
        IdsAreKeys(ds, q.subjectId);
      }
      if r.readerGroup.Some? {
        MemberDeeper(ds, s.id, r.readerGroup.value, ds.maxDepth - 2, ds.maxDepth);
      }
    }
  }

  lemma MemberDeeper(ds: Dataset, id: string, g: string, depth: int, more: int)
    requires depth <= more
    ensures MemberWithin(ds, id, g, depth) ==> MemberWithin(ds, id, g, more)
  {
    if MemberWithin(ds, id, g, depth) {
      var from :| from in ds.subjects[id].directGroups && Within(GroupGraph(ds, g), from, depth);
      WithinMonotone(GroupGraph(ds, g), GroupGraph(ds, g), from, depth, more);
    }
  }

  /** ReBAC agrees with the other models exactly when the relationship is not out of its depth. */
  lemma RebacAgreesIff(ds: Dataset, q: Request, common: Decision, rebac: Decision)
    requires WellFormed(ds) && IsVerdict(ds, q, common) && IsRebacVerdict(ds, q, rebac)
    ensures rebac.allowed == common.allowed <==> !OutOfDepth(ds, q)
  {
    hide MemberWithin, WellFormed;
    RebacNeverAllowsMore(ds, q, common, rebac);
    ReadAndWriteDiffer();
    if Relational(ds, q) {
      var s, r := ds.subjects[q.subjectId], ds.resources[q.resourceId];
      IdsAreKeys(ds, q.subjectId);
      if r.readerGroup.Some? && r.readerGroup.value != "" {
        assert SharedWith(r, r.readerGroup.value);
      }
    }
  }

  lemma ReadAndWriteDiffer()
    ensures "read" != "write"
  {
    assert |"read"| == 4 && |"write"| == 5;
  }

  /** What a dataset needs for all five to agree on every request: no relationship in the last two levels. */
  ghost predicate HasSlack(ds: Dataset) {
    forall k, j :: k in ds.subjects && j in ds.resources && Relational(ds, Request(k, "read", j)) ==>
      if ds.subjects[k].id == ds.resources[j].owner then ds.maxDepth >= 2 else !OnlyDeep(ds, ds.subjects[k], ds.resources[j])
  }

  lemma SlackIffNeverOutOfDepth(ds: Dataset)
    ensures HasSlack(ds) <==> forall q :: !OutOfDepth(ds, q)
  {
    hide OnlyDeep;
    ReadAndWriteDiffer();
    if HasSlack(ds) {
      forall q
        ensures !OutOfDepth(ds, q)
      {
        assert Relational(ds, q) ==> Relational(ds, Request(q.subjectId, "read", q.resourceId));
      }
    }
    if forall q :: !OutOfDepth(ds, q) {
      forall k, j | k in ds.subjects && j in ds.resources && Relational(ds, Request(k, "read", j))
        ensures if ds.subjects[k].id == ds.resources[j].owner then ds.maxDepth >= 2 else !OnlyDeep(ds, ds.subjects[k], ds.resources[j])
      {
        assert !OutOfDepth(ds, Request(k, "read", j));
      }
    }
  }

  function Deeper(ds: Dataset): Dataset {
    ds.(maxDepth := ds.maxDepth + 2)
  }

  /** Two more levels make up the difference exactly: ReBAC at depth d + 2 decides as the others do at depth d. */
  lemma TwoLevelsMakeUp(ds: Dataset, q: Request, d: Decision)
    requires WellFormed(ds)
    ensures IsRebacVerdict(Deeper(ds), q, d) <==> IsVerdict(ds, q, d)
  {
    hide MemberWithin, WellFormed;
    DepthIsNat(ds);
    if q.subjectId in ds.subjects && q.resourceId in ds.resources {
      var s, r := ds.subjects[q.subjectId], ds.resources[q.resourceId];
      if r.readerGroup.Some? {
        SameMembers(ds, s.id, r.readerGroup.value, ds.maxDepth);
        if r.readerGroup.value != "" {
          assert SharedWith(r, r.readerGroup.value);
        }
      }
      ReadAndWriteDiffer();
    }
  }

  lemma SameMembers(ds: Dataset, id: string, g: string, depth: int)
    ensures MemberWithin(Deeper(ds), id, g, depth) <==> MemberWithin(ds, id, g, depth)
  {
    forall from
      ensures Within(GroupGraph(Deeper(ds), g), from, depth) <==> Within(GroupGraph(ds, g), from, depth)
    {
      if Within(GroupGraph(ds, g), from, depth) {
        WithinMonotone(GroupGraph(ds, g), GroupGraph(Deeper(ds), g), from, depth, depth);
      }
      if Within(GroupGraph(Deeper(ds), g), from, depth) {
        WithinMonotone(GroupGraph(Deeper(ds), g), GroupGraph(ds, g), from, depth, depth);
      }
    }
  }

  // ----- The comparison -----

  datatype Decisions = Decisions(rbac: Decision, abac: Decision, rebac: Decision, cedar: Decision, rego: Decision)

  ghost predicate AllDecide(ds: Dataset, q: Request, all: Decisions) {
    && IsVerdict(ds, q, all.rbac) && IsAbacVerdict(ds, q, all.abac) && IsRebacVerdict(ds, q, all.rebac)
    && IsVerdict(ds, q, all.cedar) && IsVerdict(ds, q, all.rego)
  }

  predicate OneEffect(all: Decisions) {
    all.rbac.allowed == all.abac.allowed == all.rebac.allowed == all.cedar.allowed == all.rego.allowed
  }

  /** RBAC, ABAC, Cedar and Rego agree on the effect and on the reason of a denial, unless a group has no name. */
  lemma FourAgree(ds: Dataset, q: Request, all: Decisions)
    requires WellFormed(ds) && AllDecide(ds, q, all) && !ReadsThroughEmptyGroup(ds, q)
    ensures all.rbac.allowed == all.abac.allowed == all.cedar.allowed == all.rego.allowed
    ensures !all.rbac.allowed ==> all.rbac == all.abac == all.rebac == all.cedar == all.rego
  {
    hide WellFormed, ReadsThroughEmptyGroup, Permits, ReadOrWrite, PermitsByTuples, PermitsByAttributes;
    AbacAgreesIff(ds, q, all.abac);
    RebacNeverAllowsMore(ds, q, all.rbac, all.rebac);
  }

  /** The exact condition under which require_parity does not raise. */
  lemma ParityIff(ds: Dataset, q: Request, all: Decisions)
    requires WellFormed(ds) && AllDecide(ds, q, all)
    ensures OneEffect(all) <==> !OutOfDepth(ds, q) && !ReadsThroughEmptyGroup(ds, q)
  {
    hide WellFormed, OutOfDepth, Permits, ReadOrWrite, PermitsByTuples, PermitsByAttributes, MemberWithin, ReadsByGroup;
    AbacAgreesIff(ds, q, all.abac);
    RebacAgreesIff(ds, q, all.rbac, all.rebac);
  }

  ghost predicate OnlyAbacAllows(ds: Dataset, q: Request, all: Decisions) {
    && AllDecide(ds, q, all) && all.abac.allowed
    && !all.rbac.allowed && !all.rebac.allowed && !all.cedar.allowed && !all.rego.allowed
  }

  /** One dataset, one subject in the group with no name. */
  function Nameless(): Dataset {
    Dataset(map["a" := Subject("a", "t", {""}, false)], map["r" := Resource("r", "t", "b", Some(""), false)], map[], 25)
  }

  lemma NamelessIsWellFormed()
    ensures WellFormed(Nameless())
  {
    hide EndsWith;
    assert |":a"| == 2 && |":*"| == 2;
    forall name | name == "a" || name == "b" || name == "r"
      ensures Plain(name)
    {
      assert (name + ":")[0] != '*' && (":" + name)[1] != '*';
      assert "*:"[0] == '*';
      WildcardEnd(":" + name);
    }
  }

  /** ABAC alone lets the subject read. */
  lemma EmptyGroupBreaksParity()
    ensures exists ds, q, all :: WellFormed(ds) && OnlyAbacAllows(ds, q, all)
  {
    hide WellFormed, MemberWithin, ReadsDocument;
    NamelessIsWellFormed();
    var ds, q := Nameless(), Request("a", "read", "r");
    var no, yes := Denied("default-deny"), Decision(true, "attribute-policy");
    assert "a"[0] == 'a' && "b"[0] == 'b';
    assert InEffectiveGroups(ds, ds.subjects["a"], "");
    ReadAndWriteDiffer();
    assert !ReadsDocument(ds, "a", ds.resources["r"]) by {
      NoSharing(ds);
    }
    assert OnlyAbacAllows(ds, q, Decisions(no, yes, no, no, no));
  }

  lemma NoSharing(ds: Dataset)
    requires ds == Nameless()
    ensures !ReadsDocument(ds, "a", ds.resources["r"])
  {
    assert "a"[0] == 'a' && "b"[0] == 'b';
  }

  class PolicyComparison {
    const ds: Dataset
    const rbac: Rbac.RoleStore
    const rebac: RebacQueries.Engine

    ghost predicate Valid()
      reads this, rbac, rebac
    {
      && HasRoles(ds, ds.resources.Keys, rbac.roles) && HasAssignments(ds, ds.subjects.Keys, rbac.assignments)
      && (WellFormed(ds) ==> Represents(ds, rebac.State()))
    }

    constructor (ds: Dataset, rbac: Rbac.RoleStore, rebac: RebacQueries.Engine)
      ensures this.ds == ds && this.rbac == rbac && this.rebac == rebac
    {
      this.ds, this.rbac, this.rebac := ds, rbac, rebac;
    }

    /** decide_all. */
    method DecideAll(q: Request) returns (all: Decisions)
      requires Valid() && WellFormed(ds)
      ensures AllDecide(ds, q, all)
    {
      hide IsVerdict, IsAbacVerdict, IsRebacVerdict, WellFormed, HasRoles, HasAssignments, Represents;
      var rbacSays := DecideByRbac(ds, rbac, q);
      var abacSays := DecideByAbac(ds, q);
      var rebacSays := DecideByRebac(ds, rebac, q);
      var cedarSays := DecideByCedar(ds, q);
      var regoSays := DecideByRego(ds, q);
      return Decisions(rbacSays, abacSays, rebacSays, cedarSays, regoSays);
    }

    /** require_parity: None stands for the AssertionError. */
    method RequireParity(q: Request) returns (allowed: Option<bool>)
      requires Valid() && WellFormed(ds)
      ensures allowed.Some? <==> !OutOfDepth(ds, q) && !ReadsThroughEmptyGroup(ds, q)
      ensures allowed.Some? ==> exists d :: IsVerdict(ds, q, d) && allowed.value == d.allowed
    {
      hide IsVerdict, IsAbacVerdict, IsRebacVerdict, WellFormed, HasRoles, HasAssignments, Represents, OutOfDepth, ReadsThroughEmptyGroup;
      var all := DecideAll(q);
      ParityIff(ds, q, all);
      if OneEffect(all) {
        assert IsVerdict(ds, q, all.rbac);
        return Some(all.rbac.allowed);
      }
      return None;
    }
  }

  /** PolicyComparison's constructor builds every adapter first; it raises exactly when one of them does. */
  method Compare(ds: Dataset) returns (c: PolicyComparison?)
    ensures c != null <==> AdminsHaveResources(ds) && ds.maxDepth >= 0
    ensures c != null ==> fresh(c) && c.ds == ds && c.Valid()
  {
    var rolesOk, rbac := BuildRbac(ds);
    if !rolesOk {
      return null;
    }
    var depthOk, rebac := BuildRebac(ds);
    if !depthOk {
      return null;
    }
    c := new PolicyComparison(ds, rbac, rebac);
  }
}
