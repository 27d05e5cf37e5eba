/** The policy dataset and its nested-group resolution (authlab/authz/policy_comparison.py). */
module GroupResolution {
  import opened NumberTheory
  import opened BoundedSearch
  import opened Wrappers

  datatype Subject = Subject(id: string, tenant: string, directGroups: set<string>, tenantAdmin: bool)

  datatype Resource = Resource(id: string, tenant: string, owner: string, readerGroup: Option<string>, locked: bool)

  datatype Dataset = Dataset(
    subjects: map<string, Subject>,
    resources: map<string, Resource>,
    groupParents: map<string, set<string>>,
    maxDepth: int)

  datatype Resolution = Resolution(matched: bool, visited: set<string>, cycleDetected: bool, depthLimited: bool)

  function Parents(ds: Dataset, group: string): set<string> {
    if group in ds.groupParents then ds.groupParents[group] else {}
  }

  /** Groups with their parent edges, looking for one target. */
  function GroupGraph(ds: Dataset, target: string): Graph<string> {
    Graph((g: string) => Parents(ds, g), (g: string) => g == target)
  }

  /** Some direct group of the subject reaches the target in at most `depth` edges. */
  ghost predicate MemberWithin(ds: Dataset, subjectId: string, target: string, depth: int) {
    subjectId in ds.subjects
    && exists g :: g in ds.subjects[subjectId].directGroups && Within(GroupGraph(ds, target), g, depth)
  }

  /** One entry of the worklist: a group, its depth, and the groups on the way to it. */
  datatype Entry = Entry(group: string, depth: nat, path: set<string>)

  /** The target can still be found below this entry. */
  ghost predicate Live(ds: Dataset, target: string, e: Entry) {
    Pruned(GroupGraph(ds, target), e.group, ds.maxDepth - e.depth, e.path)
  }

  ghost predicate AnyLive(ds: Dataset, target: string, pending: seq<Entry>) {
    exists i :: 0 <= i < |pending| && Live(ds, target, pending[i])
  }

  lemma AnyLiveAppend(ds: Dataset, target: string, a: seq<Entry>, b: seq<Entry>)
    ensures AnyLive(ds, target, a + b) <==> AnyLive(ds, target, a) || AnyLive(ds, target, b)
  {
    hide Live;
    if AnyLive(ds, target, a) {
      var i :| 0 <= i < |a| && Live(ds, target, a[i]);
      assert (a + b)[i] == a[i];
    }
    if AnyLive(ds, target, b) {
      var i :| 0 <= i < |b| && Live(ds, target, b[i]);
      assert (a + b)[|a| + i] == b[i];
    }
  }

  /** What expanding an entry does to the search. */
  lemma LiveSteps(ds: Dataset, target: string, e: Entry, children: seq<Entry>)
    requires e.group !in e.path && e.depth <= ds.maxDepth
    requires IsExpansion(ds, e, children)
    ensures Live(ds, target, e) <==> e.group == target || AnyLive(ds, target, children)
  {
    var g := GroupGraph(ds, target);
    if Live(ds, target, e) && e.group != target {
      var m :| m in g.next(e.group) && Pruned(g, m, ds.maxDepth - e.depth - 1, e.path + {e.group});
      var i :| 0 <= i < |children| && children[i].group == m;
      assert Live(ds, target, children[i]);
    }
    if AnyLive(ds, target, children) {
      var i :| 0 <= i < |children| && Live(ds, target, children[i]);
      assert children[i].group in g.next(e.group);
    }
  }

  ghost predicate IsExpansion(ds: Dataset, e: Entry, children: seq<Entry>) {
    && (forall i :: 0 <= i < |children| ==>
          children[i].group in Parents(ds, e.group) && children[i] == Entry(children[i].group, e.depth + 1, e.path + {e.group}))
    && (forall p :: p in Parents(ds, e.group) ==> exists i :: 0 <= i < |children| && children[i].group == p)
    && |children| == |Parents(ds, e.group)|
  }

  // ----- The termination weight -----

  /** More than the number of parents of any group. */
  ghost function Base(ds: Dataset): nat {
    1 + |set g, p | g in ds.groupParents && p in ds.groupParents[g] :: p|
  }

  lemma ParentsFew(ds: Dataset, group: string)
    ensures |Parents(ds, group)| < Base(ds)
  {
    var all := set g, p | g in ds.groupParents && p in ds.groupParents[g] :: p;
    assert Parents(ds, group) <= all;
    SubsetSize(Parents(ds, group), all);
  }

  lemma SubsetSize<T>(a: set<T>, b: set<T>)
    requires a <= b
    ensures |a| <= |b|
  {
    assert b == a + (b - a);
  }

  /** An entry weighs more than everything its expansion can push, all the way down. */
  ghost function Weight(ds: Dataset, depth: nat): nat {
    var left := ds.maxDepth + 1 - depth;
    PowPositive(Base(ds), if left < 0 then 0 else left);
    Pow(Base(ds), if left < 0 then 0 else left)
  }

  ghost function TotalWeight(ds: Dataset, pending: seq<Entry>): nat {
    if pending == [] then 0 else Weight(ds, pending[|pending| - 1].depth) + TotalWeight(ds, pending[..|pending| - 1])
  }

  lemma {:induction false} TotalWeightPush(ds: Dataset, pending: seq<Entry>, children: seq<Entry>, depth: nat)
    requires forall i :: 0 <= i < |children| ==> children[i].depth == depth
    ensures TotalWeight(ds, pending + children) == TotalWeight(ds, pending) + |children| * Weight(ds, depth)
  {
    hide Weight;
    if children == [] {
      assert pending + children == pending;
    } else {
      var n, w := |children| - 1, Weight(ds, depth);
      var s := pending + children;
      assert s[..|s| - 1] == pending + children[..n] && s[|s| - 1] == children[n];
      TotalWeightPush(ds, pending, children[..n], depth);
      assert TotalWeight(ds, s) == w + (TotalWeight(ds, pending) + n * w);
      OneMore(n, w);
    }
  }

  lemma OneMore(n: int, w: int)
    ensures (n + 1) * w == n * w + w
  {
  }

  lemma ExpansionIsLighter(ds: Dataset, depth: nat, k: nat)
    requires depth <= ds.maxDepth && k < Base(ds)
    ensures k * Weight(ds, depth + 1) < Weight(ds, depth)
  {
    hide Base;
    var w := Weight(ds, depth + 1);
    PowPositive(Base(ds), ds.maxDepth - depth);
    assert Weight(ds, depth) == Base(ds) * w && w > 0;
    MulMonotone(w, k, Base(ds) - 1);
    assert w * (Base(ds) - 1) == Base(ds) * w - w;
    assert k * w == w * k;
  }

  // ----- resolve_group -----

  /** pending.append for each parent, in any order. */
  method Expand(ds: Dataset, e: Entry) returns (children: seq<Entry>)
    ensures IsExpansion(ds, e, children)
  {
    children := [];
    var parents := Parents(ds, e.group);
    var left := parents;
    while left != {}
      invariant left <= parents && |children| == |parents| - |left|
      invariant forall i :: 0 <= i < |children| ==>
        children[i].group in parents && children[i] == Entry(children[i].group, e.depth + 1, e.path + {e.group})
      invariant forall p :: p in parents && p !in left ==> exists i :: 0 <= i < |children| && children[i].group == p
      decreases left
    {
      var p :| p in left;
      ghost var before := children;
      children := children + [Entry(p, e.depth + 1, e.path + {e.group})];
      left := left - {p};
      assert children[|before|].group == p;
      assert forall i :: 0 <= i < |before| ==> children[i] == before[i];
    }
  }

  /** Every group already found, or still to be found, is exactly a group the subject is in. */
  ghost predicate Tracks(ds: Dataset, subjectId: string, visited: set<string>, pending: seq<Entry>) {
    forall x :: MemberWithin(ds, subjectId, x, ds.maxDepth) <==> x in visited || AnyLive(ds, x, pending)
  }

  lemma TracksInitially(ds: Dataset, subjectId: string, pending: seq<Entry>)
    requires subjectId in ds.subjects
    requires forall i :: 0 <= i < |pending| ==>
      pending[i].group in ds.subjects[subjectId].directGroups && pending[i] == Entry(pending[i].group, 0, {})
    requires forall g :: g in ds.subjects[subjectId].directGroups ==> exists i :: 0 <= i < |pending| && pending[i].group == g
    ensures Tracks(ds, subjectId, {}, pending)
  {
    forall x
      ensures MemberWithin(ds, subjectId, x, ds.maxDepth) <==> AnyLive(ds, x, pending)
    {
      if MemberWithin(ds, subjectId, x, ds.maxDepth) {
        var g :| g in ds.subjects[subjectId].directGroups && Within(GroupGraph(ds, x), g, ds.maxDepth);
        PruningIsComplete(GroupGraph(ds, x), g, ds.maxDepth);
        var i :| 0 <= i < |pending| && pending[i].group == g;
        assert Live(ds, x, pending[i]);
      }
      if AnyLive(ds, x, pending) {
        var i :| 0 <= i < |pending| && Live(ds, x, pending[i]);
        PruningIsComplete(GroupGraph(ds, x), pending[i].group, ds.maxDepth);
      }
    }
  }

  lemma TracksDrop(ds: Dataset, subjectId: string, visited: set<string>, rest: seq<Entry>, e: Entry)
    requires Tracks(ds, subjectId, visited, rest + [e])
    requires e.group in e.path || e.depth > ds.maxDepth
    ensures Tracks(ds, subjectId, visited, rest)
  {
    forall x
      ensures AnyLive(ds, x, rest + [e]) <==> AnyLive(ds, x, rest)
    {
      AnyLiveAppend(ds, x, rest, [e]);
      assert !Live(ds, x, e);
    }
  }

  lemma TracksExpand(ds: Dataset, subjectId: string, visited: set<string>, rest: seq<Entry>, e: Entry, children: seq<Entry>)
    requires Tracks(ds, subjectId, visited, rest + [e])
    requires e.group !in e.path && e.depth <= ds.maxDepth && IsExpansion(ds, e, children)
    ensures Tracks(ds, subjectId, visited + {e.group}, rest + children)
  {
    hide MemberWithin, IsExpansion;
    forall x
      ensures x in visited || AnyLive(ds, x, rest + [e]) <==> x in visited + {e.group} || AnyLive(ds, x, rest + children)
    {
      AnyLiveAppend(ds, x, rest, [e]);
      AnyLiveAppend(ds, x, rest, children);
      LiveSteps(ds, x, e, children);
      hide Live;
      assert AnyLive(ds, x, [e]) <==> Live(ds, x, [e][0]);
    }
  }

  /** Nothing has been cut off by depth: whatever a visited group leads to is visited or still pending. */
  ghost predicate Complete(ds: Dataset, visited: set<string>, pending: seq<Entry>) {
    && (forall i :: 0 <= i < |pending| ==> pending[i].path <= visited)
    && (forall g, p :: g in visited && p in Parents(ds, g) ==> p in visited || exists i :: 0 <= i < |pending| && pending[i].group == p)
  }

  lemma CompleteDrop(ds: Dataset, visited: set<string>, rest: seq<Entry>, e: Entry)
    requires Complete(ds, visited, rest + [e]) && e.group in e.path
    ensures Complete(ds, visited, rest)
  {
    CompleteParts(ds, visited, rest, e);
    forall g, p | g in visited && p in Parents(ds, g) && p !in visited
      ensures exists i :: 0 <= i < |rest| && rest[i].group == p
    {
      var i :| 0 <= i < |rest + [e]| && (rest + [e])[i].group == p;
      assert i < |rest|;
      assert rest[i].group == p;
    }
  }

  lemma CompleteParts(ds: Dataset, visited: set<string>, rest: seq<Entry>, e: Entry)
    requires Complete(ds, visited, rest + [e])
    ensures e.path <= visited && forall i :: 0 <= i < |rest| ==> rest[i].path <= visited
  {
    assert (rest + [e])[|rest|] == e;
    assert forall i :: 0 <= i < |rest| ==> (rest + [e])[i] == rest[i];
  }

  lemma CompleteExpand(ds: Dataset, visited: set<string>, rest: seq<Entry>, e: Entry, children: seq<Entry>)
    requires Complete(ds, visited, rest + [e]) && IsExpansion(ds, e, children)
    ensures Complete(ds, visited + {e.group}, rest + children)
  {
    CompleteParts(ds, visited, rest, e);
    var after := rest + children;
    forall i | 0 <= i < |after|
      ensures after[i].path <= visited + {e.group}
    {
      if i >= |rest| {
        assert after[i] == children[i - |rest|];
      }
    }
    forall g, p | g in visited + {e.group} && p in Parents(ds, g) && p !in visited + {e.group}
      ensures exists i :: 0 <= i < |after| && after[i].group == p
    {
      if g == e.group {
        var i :| 0 <= i < |children| && children[i].group == p;
        assert after[|rest| + i].group == p;
      } else {
        var i :| 0 <= i < |rest + [e]| && (rest + [e])[i].group == p;
        assert i < |rest| && after[i].group == p;
      }
    }
  }

  /** A complete, exhausted search has found everything reachable. */
  lemma CompleteIsClosed(ds: Dataset, target: string, visited: set<string>, group: string, fuel: int)
    requires Complete(ds, visited, []) && group in visited
    requires Within(GroupGraph(ds, target), group, fuel)
    ensures target in visited
    decreases fuel
  {
    var g := GroupGraph(ds, target);
    if group != target {
      var m :| m in g.next(group) && Within(g, m, fuel - 1);
      assert m in Parents(ds, group);
      CompleteIsClosed(ds, target, visited, m, fuel - 1);
    }
  }

  lemma WeightDrops(ds: Dataset, rest: seq<Entry>, e: Entry, children: seq<Entry>)
    requires e.depth <= ds.maxDepth && IsExpansion(ds, e, children)
    ensures TotalWeight(ds, rest + children) < TotalWeight(ds, rest + [e])
  {
    hide Weight;
    TotalWeightPush(ds, rest, children, e.depth + 1);
    TotalWeightPush(ds, rest, [e], e.depth);
    ParentsFew(ds, e.group);
    ExpansionIsLighter(ds, e.depth, |children|);
    OneMore(0, Weight(ds, e.depth));
  }

  lemma WeightOfDrop(ds: Dataset, rest: seq<Entry>, e: Entry)
    ensures TotalWeight(ds, rest) < TotalWeight(ds, rest + [e])
  {
    TotalWeightPush(ds, rest, [e], e.depth);
    PowPositive(Base(ds), if ds.maxDepth + 1 - e.depth < 0 then 0 else ds.maxDepth + 1 - e.depth);
  }

  /** pending = [(group, 0, frozenset()) for group in direct_groups], in any order. */
  method Initial(direct: set<string>) returns (pending: seq<Entry>)
    ensures forall i :: 0 <= i < |pending| ==> pending[i].group in direct && pending[i] == Entry(pending[i].group, 0, {})
    ensures forall g :: g in direct ==> exists i :: 0 <= i < |pending| && pending[i].group == g
  {
    pending := [];
    var left := direct;
    while left != {}
      invariant left <= direct
      invariant forall i :: 0 <= i < |pending| ==> pending[i].group in direct && pending[i] == Entry(pending[i].group, 0, {})
      invariant forall g :: g in direct && g !in left ==> exists i :: 0 <= i < |pending| && pending[i].group == g
      decreases left
    {
      var g :| g in left;
      ghost var before := pending;
      pending := pending + [Entry(g, 0, {})];
      left := left - {g};
      assert pending[|before|].group == g;
      assert forall i :: 0 <= i < |before| ==> pending[i] == before[i];
    }
  }

  /**
   resolve_group. It terminates on every graph, cyclic ones included; it matches exactly when a direct group
   reaches the target within the depth bound; an unmatched search has visited exactly the subject's groups;
   and without a depth cut-off "unmatched" means unreachable at any depth.
   */
  method ResolveGroup(ds: Dataset, subjectId: string, target: string) returns (r: Resolution)
    ensures r.matched <==> MemberWithin(ds, subjectId, target, ds.maxDepth)
    ensures forall g :: g in r.visited ==> MemberWithin(ds, subjectId, g, ds.maxDepth)
    ensures !r.matched ==> forall g :: MemberWithin(ds, subjectId, g, ds.maxDepth) ==> g in r.visited
    ensures !r.matched && !r.depthLimited ==> forall depth :: !MemberWithin(ds, subjectId, target, depth)
  {
    if subjectId !in ds.subjects {
      return Resolution(false, {}, false, false);
    }
    hide Tracks, Complete, TotalWeight, IsExpansion, MemberWithin, DirectKept;
    var direct := ds.subjects[subjectId].directGroups;
    var pending := Initial(direct);
    var visited: set<string>, cycleDetected, depthLimited := {}, false, false;
    TracksInitially(ds, subjectId, pending);
    CompleteInitially(ds, pending);
    DirectInitially(direct, pending);
    while pending != []
      invariant Tracks(ds, subjectId, visited, pending)
      invariant target !in visited
      invariant !depthLimited ==> Complete(ds, visited, pending)
      invariant !depthLimited ==> DirectKept(direct, visited, pending)
      decreases TotalWeight(ds, pending)
    {
      var e, rest := pending[|pending| - 1], pending[..|pending| - 1];
      assert pending == rest + [e];
      if e.group in e.path {
        cycleDetected := true;
        TracksDrop(ds, subjectId, visited, rest, e);
        WeightOfDrop(ds, rest, e);
        if !depthLimited {
          CompletePath(ds, visited, rest, e);
          CompleteDrop(ds, visited, rest, e);
          DirectStay(direct, visited, rest, e, []);
          assert rest + [] == rest;
        }
        pending := rest;
      } else if e.depth > ds.maxDepth {
        depthLimited := true;
        TracksDrop(ds, subjectId, visited, rest, e);
        WeightOfDrop(ds, rest, e);
        pending := rest;
      } else {
        var children := Expand(ds, e);
        TracksExpand(ds, subjectId, visited, rest, e, children);
        WeightDrops(ds, rest, e, children);
        if !depthLimited {
          CompleteExpand(ds, visited, rest, e, children);
          DirectGrows(direct, visited, rest + [e], e.group);
          DirectStay(direct, visited + {e.group}, rest, e, children);
        }
        visited := visited + {e.group};
        if e.group == target {
          TracksMeans(ds, subjectId, visited, rest + children);
          return Resolution(true, visited, cycleDetected, depthLimited);
        }
        pending := rest + children;
      }
    }
    TracksMeans(ds, subjectId, visited, []);
    if !depthLimited {
      NothingMissed(ds, subjectId, target, visited);
    }
    return Resolution(false, visited, cycleDetected, depthLimited);
  }

  lemma DirectInitially(direct: set<string>, pending: seq<Entry>)
    requires forall g :: g in direct ==> exists i :: 0 <= i < |pending| && pending[i].group == g
    ensures DirectKept(direct, {}, pending)
  {
  }

  lemma CompleteInitially(ds: Dataset, pending: seq<Entry>)
    requires forall i :: 0 <= i < |pending| ==> pending[i].path == {}
    ensures Complete(ds, {}, pending)
  {
  }

  /** No direct group has been lost. */
  ghost predicate DirectKept(direct: set<string>, visited: set<string>, pending: seq<Entry>) {
    forall g :: g in direct ==> g in visited || exists i :: 0 <= i < |pending| && pending[i].group == g
  }

  lemma DirectGrows(direct: set<string>, visited: set<string>, pending: seq<Entry>, group: string)
    requires DirectKept(direct, visited, pending)
    ensures DirectKept(direct, visited + {group}, pending)
  {
  }

  lemma CompletePath(ds: Dataset, visited: set<string>, rest: seq<Entry>, e: Entry)
    requires Complete(ds, visited, rest + [e]) && e.group in e.path
    ensures e.group in visited
  {
    CompleteParts(ds, visited, rest, e);
  }

  lemma DirectStay(direct: set<string>, visited: set<string>, rest: seq<Entry>, e: Entry, children: seq<Entry>)
    requires DirectKept(direct, visited, rest + [e])
    requires e.group in visited
    ensures DirectKept(direct, visited, rest + children)
  {
    forall g | g in direct && g !in visited
      ensures exists i :: 0 <= i < |rest + children| && (rest + children)[i].group == g
    {
      var i :| 0 <= i < |rest + [e]| && (rest + [e])[i].group == g;
      assert i < |rest| && (rest + children)[i].group == g;
    }
  }

  lemma TracksMeans(ds: Dataset, subjectId: string, visited: set<string>, pending: seq<Entry>)
    requires Tracks(ds, subjectId, visited, pending)
    ensures forall x :: x in visited ==> MemberWithin(ds, subjectId, x, ds.maxDepth)
    ensures pending == [] ==> forall x :: MemberWithin(ds, subjectId, x, ds.maxDepth) ==> x in visited
  {
    hide MemberWithin;
  }

  lemma NothingMissed(ds: Dataset, subjectId: string, target: string, visited: set<string>)
    requires subjectId in ds.subjects && Complete(ds, visited, []) && target !in visited
    requires DirectKept(ds.subjects[subjectId].directGroups, visited, [])
    ensures forall depth :: !MemberWithin(ds, subjectId, target, depth)
  {
    forall depth
      ensures !MemberWithin(ds, subjectId, target, depth)
    {
      if MemberWithin(ds, subjectId, target, depth) {
        var g :| g in ds.subjects[subjectId].directGroups && Within(GroupGraph(ds, target), g, depth);
        CompleteIsClosed(ds, target, visited, g, depth);
      }
    }
  }
}
