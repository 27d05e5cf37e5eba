/** Pushed authorization requests: references that work once (authlab/oauth/par.py). */
module Par {
  datatype Pushed = Pushed(clientId: string, params: string, expiresAt: int, used: bool)

  type References = map<string, Pushed>

  /** Resolve is a call that passed every check; it spends the reference whether or not the request is then found valid. */
  datatype Event =
    | Push(uri: string, clientId: string, params: string, expiresAt: int)
    | Resolve(uri: string, clientId: string, at: int)
    | Refuse

  predicate Resolvable(st: References, uri: string, clientId: string, at: int) {
    uri in st && !st[uri].used && at <= st[uri].expiresAt && st[uri].clientId == clientId
  }

  predicate Enabled(st: References, e: Event) {
    match e
    case Push(uri, clientId, params, expiresAt) => uri !in st
    case Resolve(uri, clientId, at) => Resolvable(st, uri, clientId, at)
    case Refuse => true
  }

  function Apply(st: References, e: Event): References
    requires Enabled(st, e)
  {
    match e
    case Push(uri, clientId, params, expiresAt) => st[uri := Pushed(clientId, params, expiresAt, false)]
    case Resolve(uri, clientId, at) => st[uri := st[uri].(used := true)]
    case Refuse => st
  }

  ghost predicate IsStep(st: References, e: Event, next: References) {
    Enabled(st, e) && next == Apply(st, e)
  }

  ghost predicate IsRun(states: seq<References>, events: seq<Event>) {
    && |states| == |events| + 1 && states[0] == map[]
    && forall i :: 0 <= i < |events| ==> IsStep(states[i], events[i], states[i + 1])
  }

  lemma {:induction false} KeptAlways(states: seq<References>, events: seq<Event>, i: nat, k: nat, uri: string)
    requires IsRun(states, events) && i <= k < |states| && uri in states[i]
    ensures uri in states[k] && states[k][uri] == states[i][uri].(used := states[k][uri].used)
    ensures states[i][uri].used ==> states[k][uri].used
    decreases k - i
  {
    if i < k {
      KeptAlways(states, events, i, k - 1, uri);
      assert IsStep(states[k - 1], events[k - 1], states[k - 1 + 1]);
    }
  }

  /** A request_uri is resolved at most once in a run, and then to what its own client pushed, before it expired. */
  lemma ResolvedOnce(states: seq<References>, events: seq<Event>, p: nat, i: nat, k: nat)
    requires IsRun(states, events) && p < i < k < |events|
    requires events[p].Push? && events[i].Resolve? && events[i].uri == events[p].uri
    ensures events[k].Resolve? ==> events[k].uri != events[i].uri
    ensures events[i].clientId == events[p].clientId && events[i].at <= events[p].expiresAt
    ensures events[i].uri in states[i] && states[i][events[i].uri].params == events[p].params
  {
    assert IsStep(states[p], events[p], states[p + 1]);
    assert IsStep(states[i], events[i], states[i + 1]);
    assert IsStep(states[k], events[k], states[k + 1]);
    KeptAlways(states, events, p + 1, i, events[p].uri);
    KeptAlways(states, events, i + 1, k, events[i].uri);
  }

  datatype Error = Unknown | Replayed | Expired | WrongClient | InvalidRequest

  datatype Outcome = Accepted(params: string) | Refused(error: Error)

  class PushedAuthorizationRequests {
    const lifetime: int
    var requests: References
    ghost var states: seq<References>
    ghost var events: seq<Event>

    ghost predicate Valid()
      reads this
    {
      IsRun(states, events) && |states| == |events| + 1 && states[|events|] == requests
    }

    constructor (lifetime: int)
      requires 0 < lifetime < 600
      ensures Valid() && requests == map[] && this.lifetime == lifetime && events == []
    {
      this.lifetime, requests := lifetime, map[];
      states, events := [map[]], [];
    }

    ghost method Record(e: Event)
      requires IsRun(states, events) && IsStep(states[|events|], e, requests)
      modifies this`states, this`events
      ensures Valid() && events == old(events) + [e]
    {
      hide IsStep;
      states, events := states + [requests], events + [e];
    }

    /** push, once the client and the request have been checked; the reference is a fresh random value. */
    method PushRequest(uri: string, clientId: string, params: string, now: int)
      requires Valid() && uri !in requests
      modifies this
      ensures Valid() && events == old(events) + [Push(uri, clientId, params, now + lifetime)]
    {
      hide IsRun;
      requests := requests[uri := Pushed(clientId, params, now + lifetime, false)];
      Record(Push(uri, clientId, params, now + lifetime));
    }

    /** authorize. `valid` is the verdict of the request check, which comes after the reference is spent. */
    method Authorize(uri: string, clientId: string, valid: string -> bool, at: int) returns (out: Outcome)
      requires Valid()
      modifies this
      ensures Valid()
      ensures out.Accepted? <==> Resolvable(old(requests), uri, clientId, at) && valid(old(requests)[uri].params)
      ensures out.Accepted? ==> out.params == old(requests)[uri].params
      ensures events == old(events) + [if Resolvable(old(requests), uri, clientId, at) then Resolve(uri, clientId, at) else Refuse]
    {
      hide IsRun;
      if uri !in requests {
        Record(Refuse);
        return Refused(Unknown);
      }
      var record := requests[uri];
      if record.used {
        Record(Refuse);
        return Refused(Replayed);
      }
      if at > record.expiresAt {
        Record(Refuse);
        return Refused(Expired);
      }
      if clientId != record.clientId {
        Record(Refuse);
        return Refused(WrongClient);
      }
      requests := requests[uri := record.(used := true)];
      Record(Resolve(uri, clientId, at));
      if valid(record.params) {
        return Accepted(record.params);
      }
      return Refused(InvalidRequest);
    }
  }
}
