/** Attribute-based policies combined by deny-overrides with a closed default (authlab/authz/abac.py). */
module Abac {
  import opened Wrappers

  datatype Effect = Allow | Deny

  datatype Request<A> = Request(attributes: A, resourceType: string, action: string)

  /** A condition answers Some(fires), or None when evaluating it raises. */
  datatype Policy<!A> = Policy(
    name: string,
    effect: Effect,
    actions: seq<string>,
    resourceTypes: seq<string>,
    condition: Option<Request<A> -> Option<bool>>)

  datatype Decision = Decision(effect: Effect, matched: seq<string>)

  predicate AppliesTo<A>(p: Policy<A>, request: Request<A>) {
    && ("*" in p.actions || request.action in p.actions)
    && ("*" in p.resourceTypes || request.resourceType in p.resourceTypes)
  }

  /** The policy applies and its condition answers true; an error in the condition never fires. */
  predicate Fires<A>(p: Policy<A>, request: Request<A>) {
    AppliesTo(p, request) && (p.condition.None? || p.condition.value(request) == Some(true))
  }

  /** The request is among those listed, where a star lists all. */
  predicate Lists(names: seq<string>, name: string) {
    exists n :: n in names && n in {"*", name}
  }

  /** A policy fires for requests it lists, if it has no condition or one that answers true; one that raises never fires. */
  lemma FiresIff<A>(p: Policy<A>, request: Request<A>)
    ensures Fires(p, request) <==>
      && Lists(p.actions, request.action) && Lists(p.resourceTypes, request.resourceType)
      && (match p.condition
          case None => true
          case Some(condition) =>
            (match condition(request)
             case None => false
             case Some(answer) => answer))
  {
  }

  ghost predicate SomeFires<A(!new)>(policies: seq<Policy<A>>, request: Request<A>, effect: Effect) {
    exists p :: p in policies && p.effect == effect && Fires(p, request)
  }

  /** What deny-overrides with default-deny means. */
  ghost predicate Permitted<A(!new)>(policies: seq<Policy<A>>, request: Request<A>) {
    SomeFires(policies, request, Allow) && !SomeFires(policies, request, Deny)
  }

  ghost predicate IsFiring<A(!new)>(policies: seq<Policy<A>>, request: Request<A>, effect: Effect, name: string) {
    exists p :: p in policies && p.effect == effect && Fires(p, request) && p.name == name
  }

  /** The names of the policies of one effect that fire, in the order of the policies. */
  function Firing<A>(policies: seq<Policy<A>>, request: Request<A>, effect: Effect): seq<string> {
    if policies == [] then []
    else
      var n := |policies| - 1;
      var before := Firing(policies[..n], request, effect);
      if policies[n].effect == effect && Fires(policies[n], request) then before + [policies[n].name] else before
  }

  class Engine<!A(!new)> {
    var policies: seq<Policy<A>>

    constructor (policies: seq<Policy<A>>)
      ensures this.policies == policies
    {
      this.policies := policies;
    }

    /** add: policies are only ever appended, so a prohibition in force stays in force. */
    method Add(policy: Policy<A>)
      modifies this
      ensures policies == old(policies) + [policy]
      ensures forall request :: SomeFires(old(policies), request, Deny) ==> !Permitted(policies, request)
    {
      policies := policies + [policy];
      forall request | SomeFires(old(policies), request, Deny)
        ensures !Permitted(policies, request)
      {
        DenyCannotBeUndone(old(policies), [policy], request);
      }
    }

    /** evaluate. The names reported are exactly those of the policies that fired, prohibitions first. */
    method Evaluate(request: Request<A>) returns (d: Decision)
      ensures d.effect == Allow <==> Permitted(policies, request)
      ensures forall name :: name in d.matched <==>
        IsFiring(policies, request, Deny, name) || IsFiring(policies, request, Allow, name)
      ensures d.matched == Firing(policies, request, Deny) + Firing(policies, request, Allow)
      ensures d.matched == [] <==> !SomeFires(policies, request, Allow) && !SomeFires(policies, request, Deny)
    {
      hide Fires, IsFiring, SomeFires;
      var allows, denies: seq<string> := [], [];
      for i := 0 to |policies|
        invariant denies == Firing(policies[..i], request, Deny) && allows == Firing(policies[..i], request, Allow)
      {
        var p := policies[i];
        assert policies[..i + 1][..i] == policies[..i];
        if Fires(p, request) {
          if p.effect == Deny {
            denies := denies + [p.name];
          } else {
            allows := allows + [p.name];
          }
        }
      }
      assert policies[..|policies|] == policies;
      FiringMeans(policies, request, Deny);
      FiringMeans(policies, request, Allow);
      if denies != [] {
        return Decision(Deny, denies + allows);
      }
      if allows != [] {
        return Decision(Allow, allows);
      }
      return Decision(Deny, []);
    }
  }

  /** These are the names of the policies that fire. */
  lemma {:induction false} FiringMeans<A(!new)>(policies: seq<Policy<A>>, request: Request<A>, effect: Effect)
    ensures Firing(policies, request, effect) != [] <==> SomeFires(policies, request, effect)
    ensures forall name :: name in Firing(policies, request, effect) <==> IsFiring(policies, request, effect, name)
    decreases |policies|
  {
    hide Fires;
    if policies != [] {
      var n := |policies| - 1;
      FiringMeans(policies[..n], request, effect);
      FiringStep(policies[..n], policies[n], request, effect);
      hide SomeFires, IsFiring;
      assert policies == policies[..n] + [policies[n]];
    }
  }

  lemma FiringStep<A(!new)>(before: seq<Policy<A>>, p: Policy<A>, request: Request<A>, effect: Effect)
    ensures SomeFires(before + [p], request, effect) <==>
      SomeFires(before, request, effect) || (p.effect == effect && Fires(p, request))
    ensures forall name :: IsFiring(before + [p], request, effect, name) <==>
      IsFiring(before, request, effect, name) || (p.effect == effect && Fires(p, request) && p.name == name)
  {
    hide Fires;
    assert p in before + [p];
  }

  /** No list of further policies, whatever their effect, undoes a prohibition. */
  lemma DenyCannotBeUndone<A(!new)>(policies: seq<Policy<A>>, more: seq<Policy<A>>, request: Request<A>)
    requires SomeFires(policies, request, Deny)
    ensures !Permitted(policies + more, request)
  {
    var p :| p in policies && p.effect == Deny && Fires(p, request);
    assert p in policies + more;
  }

  /** The order in which policies were added is irrelevant. */
  lemma OrderIsIrrelevant<A(!new)>(policies: seq<Policy<A>>, other: seq<Policy<A>>, request: Request<A>)
    requires forall p :: p in policies <==> p in other
    ensures Permitted(policies, request) <==> Permitted(other, request)
  {
  }
}
