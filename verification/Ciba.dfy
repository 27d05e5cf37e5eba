/** Backchannel authentication requests and their polling (authlab/oauth/ciba.py). */
module Ciba {
  import opened Wrappers

  datatype Mode = Poll | Ping | Push

  datatype Request = Request(
    clientId: string,
    expiresAt: int,
    interval: int,
    mode: Mode,
    certificate: Option<string>,
    subject: Option<string>,
    denied: bool,
    used: bool,
    lastPolledAt: Option<int>)

  type Requests = map<string, Request>

  /** What one call does. `at` is the clock of the expiry check, `now` that of the polling check. */
  datatype Event =
    | Start(id: string, clientId: string, expiresAt: int, mode: Mode, certificate: Option<string>)
    | Approve(id: string, subject: string, at: int)
    | PushTokens(id: string, subject: string, at: int)
    | Deny(id: string, at: int)
    | Pending(id: string, clientId: string, at: int, now: int)
    | TooFast(id: string, clientId: string, at: int, now: int)
    | Redeem(id: string, clientId: string, at: int)

  /** _record: known, not used, not expired. */
  predicate Open(st: Requests, id: string, at: int) {
    id in st && !st[id].used && at <= st[id].expiresAt
  }

  /** Polled again before the interval has passed. */
  predicate Early(r: Request, now: int) {
    r.lastPolledAt.Some? && now - r.lastPolledAt.value < r.interval
  }

  /** A token request of the right client that finds the request neither denied nor delivered by push. */
  predicate Polls(st: Requests, id: string, clientId: string, at: int) {
    Open(st, id, at) && st[id].clientId == clientId && st[id].mode != Push && !st[id].denied
  }

  predicate Enabled(st: Requests, e: Event) {
    match e
    case Start(id, clientId, expiresAt, mode, certificate) => id !in st
    case Approve(id, subject, at) => Open(st, id, at) && st[id].mode != Push
    case PushTokens(id, subject, at) => Open(st, id, at) && st[id].mode == Push
    case Deny(id, at) => Open(st, id, at)
    case Pending(id, clientId, at, now) => Polls(st, id, clientId, at) && st[id].subject.None? && !Early(st[id], now)
    case TooFast(id, clientId, at, now) => Polls(st, id, clientId, at) && st[id].subject.None? && Early(st[id], now)
    case Redeem(id, clientId, at) => Polls(st, id, clientId, at) && st[id].subject.Some?
  }

  function Apply(st: Requests, e: Event, interval: int): Requests
    requires Enabled(st, e)
  {
    match e
    case Start(id, clientId, expiresAt, mode, certificate) =>
      st[id := Request(clientId, expiresAt, interval, mode, certificate, None, false, false, None)]
    case Approve(id, subject, at) => st[id := st[id].(subject := Some(subject))]
    case PushTokens(id, subject, at) => st[id := st[id].(subject := Some(subject), used := true)]
    case Deny(id, at) => st[id := st[id].(denied := true)]
    case Pending(id, clientId, at, now) => st[id := st[id].(lastPolledAt := Some(now))]
    case TooFast(id, clientId, at, now) => st[id := st[id].(interval := st[id].interval + 5, lastPolledAt := Some(now))]
    case Redeem(id, clientId, at) => st[id := st[id].(used := true)]
  }

  ghost predicate IsRun(states: seq<Requests>, events: seq<Event>, interval: int) {
    && |states| == |events| + 1 && states[0] == map[]
    && forall i :: 0 <= i < |events| ==> IsStep(states[i], events[i], states[i + 1], interval)
  }

  ghost predicate IsStep(st: Requests, e: Event, next: Requests, interval: int) {
    Enabled(st, e) && next == Apply(st, e, interval)
  }

  predicate Delivers(e: Event, id: string) {
    (e.PushTokens? && e.id == id) || (e.Redeem? && e.id == id)
  }

  // ----- Laws of every run -----

  /** What later states keep of a request. */
  ghost predicate Kept(st: Requests, later: Requests) {
    forall id :: id in st ==>
      id in later && later[id].mode == st[id].mode && later[id].clientId == st[id].clientId
      && (st[id].used ==> later[id].used) && (st[id].denied ==> later[id].denied)
  }

  lemma {:induction false} KeptAlways(states: seq<Requests>, events: seq<Event>, interval: int, i: nat, k: nat)
    requires IsRun(states, events, interval) && i <= k < |states|
    ensures Kept(states[i], states[k])
    decreases k - i
  {
    if i < k {
      KeptAlways(states, events, interval, i, k - 1);
      assert IsStep(states[k - 1], events[k - 1], states[k - 1 + 1], interval);
    }
  }

  /** One request identifier delivers tokens at most once, whatever the mode and the interleaving. */
  lemma DeliveredOnce(states: seq<Requests>, events: seq<Event>, interval: int, i: nat, k: nat, id: string)
    requires IsRun(states, events, interval) && i < k < |events| && Delivers(events[i], id)
    ensures !Delivers(events[k], id)
  {
    assert IsStep(states[i], events[i], states[i + 1], interval);
    assert IsStep(states[k], events[k], states[k + 1], interval);
    KeptAlways(states, events, interval, i + 1, k);
  }

  /** In poll and ping mode no tokens follow a denial. */
  lemma NoTokensAfterDenial(states: seq<Requests>, events: seq<Event>, interval: int, i: nat, k: nat, id: string)
    requires IsRun(states, events, interval) && i < k < |events| && events[i].Deny? && events[i].id == id
    ensures id in states[i]
    ensures states[i][id].mode != Push ==> !Delivers(events[k], id)
  {
    assert IsStep(states[i], events[i], states[i + 1], interval);
    assert IsStep(states[k], events[k], states[k + 1], interval);
    KeptAlways(states, events, interval, i + 1, k);
  }

  predicate DeniedThenDelivered(events: seq<Event>) {
    |events| == 3 && events[1].Deny? && Delivers(events[2], events[1].id)
  }

  /** In push mode they do: approving a denied request delivers. */
  lemma PushIgnoresDenial(interval: int)
    ensures exists states: seq<Requests>, events: seq<Event> :: IsRun(states, events, interval) && DeniedThenDelivered(events)
  {
    var start, deny, push := Start("r", "c", 300, Push, None), Deny("r", 1), PushTokens("r", "u", 2);
    var s0: Requests := map[];
    var s1 := Apply(s0, start, interval);
    var s2 := Apply(s1, deny, interval);
    var s3 := Apply(s2, push, interval);
    var states, events := [s0, s1, s2, s3], [start, deny, push];
    assert IsStep(s0, start, s1, interval) && IsStep(s1, deny, s2, interval) && IsStep(s2, push, s3, interval);
    assert IsRun(states, events, interval);
  }

  /** A denied request that is still open can deliver by some call exactly when it is in push mode. */
  lemma DeniedDeliversIff(st: Requests, id: string, at: int)
    requires Open(st, id, at) && st[id].denied
    ensures (exists e :: Enabled(st, e) && Delivers(e, id)) <==> st[id].mode == Push
    ensures forall subject :: Enabled(st, PushTokens(id, subject, at)) <==> st[id].mode == Push
  {
    if st[id].mode == Push {
      assert Enabled(st, PushTokens(id, "", at)) && Delivers(PushTokens(id, "", at), id);
    }
  }

  /** How often the client was told to slow down. */
  function SlowDowns(events: seq<Event>, id: string): nat {
    if events == [] then 0
    else
      var last := events[|events| - 1];
      SlowDowns(events[..|events| - 1], id) + if last.TooFast? && last.id == id then 1 else 0
  }

  /** The polling interval is its starting value plus five for each SlowDown. */
  lemma {:induction false} IntervalLaw(states: seq<Requests>, events: seq<Event>, interval: int, k: nat, id: string)
    requires IsRun(states, events, interval) && k < |states|
    ensures id in states[k] ==> states[k][id].interval == interval + 5 * SlowDowns(events[..k], id)
    ensures id !in states[k] ==> SlowDowns(events[..k], id) == 0
    decreases k
  {
    if k > 0 {
      IntervalLaw(states, events, interval, k - 1, id);
      assert IsStep(states[k - 1], events[k - 1], states[k - 1 + 1], interval);
      assert events[..k][..k - 1] == events[..k - 1];
    }
  }

  // ----- A request is its history -----

  /** What the calls about one request have left behind, going by the calls alone. */
  datatype History = Unknown | History(
    clientId: string, expiresAt: int, mode: Mode, certificate: Option<string>,
    approvedFor: Option<string>, denied: bool, delivered: bool, lastPoll: Option<int>)

  function HistoryOf(events: seq<Event>, id: string): History {
    if events == [] then Unknown
    else
      var last := events[|events| - 1];
      var before := HistoryOf(events[..|events| - 1], id);
      if last.id != id then before
      else if last.Start? then History(last.clientId, last.expiresAt, last.mode, last.certificate, None, false, false, None)
      else if before.Unknown? then Unknown
      else before.(
        approvedFor := if last.Approve? || last.PushTokens? then Some(last.subject) else before.approvedFor,
        denied := before.denied || last.Deny?,
        delivered := before.delivered || last.PushTokens? || last.Redeem?,
        lastPoll := if last.Pending? || last.TooFast? then Some(last.now) else before.lastPoll)
  }

  ghost predicate Agrees(st: Requests, id: string, h: History) {
    && (id in st <==> h.History?)
    && (id in st ==>
          && st[id].clientId == h.clientId && st[id].expiresAt == h.expiresAt && st[id].mode == h.mode
          && st[id].certificate == h.certificate && st[id].subject == h.approvedFor && st[id].denied == h.denied
          && st[id].used == h.delivered && st[id].lastPolledAt == h.lastPoll)
  }

  /** In every run a request's record says what its start said, who approved it last, whether it was denied or delivered, and when it was last polled. */
  lemma {:induction false} RecordIsHistory(states: seq<Requests>, events: seq<Event>, interval: int, k: nat, id: string)
    requires IsRun(states, events, interval) && k < |states|
    ensures Agrees(states[k], id, HistoryOf(events[..k], id))
    decreases k
  {
    if k > 0 {
      RecordIsHistory(states, events, interval, k - 1, id);
      assert IsStep(states[k - 1], events[k - 1], states[k - 1 + 1], interval);
      assert events[..k][..k - 1] == events[..k - 1];
    }
  }

  /** A request delivers by a token call only to its own client, before it expires, once it is approved and not denied. */
  lemma RedeemedAsApproved(states: seq<Requests>, events: seq<Event>, interval: int, k: nat)
    requires IsRun(states, events, interval) && k < |events| && events[k].Redeem?
    ensures var h := HistoryOf(events[..k], events[k].id);
      h.History? && h.clientId == events[k].clientId && events[k].at <= h.expiresAt && h.approvedFor.Some? && !h.denied && !h.delivered && h.mode != Push
  {
    RecordIsHistory(states, events, interval, k, events[k].id);
    assert IsStep(states[k], events[k], states[k + 1], interval);
  }

  /** SlowDown answers a poll within the grown interval since the last one, authorization_pending any other of an open question. */
  lemma PolledAsTimed(states: seq<Requests>, events: seq<Event>, interval: int, k: nat)
    requires IsRun(states, events, interval) && k < |events| && (events[k].TooFast? || events[k].Pending?)
    ensures var h := HistoryOf(events[..k], events[k].id);
      && h.History? && h.clientId == events[k].clientId && h.approvedFor.None? && !h.denied && !h.delivered
      && (events[k].TooFast? <==>
            h.lastPoll.Some? && events[k].now - h.lastPoll.value < interval + 5 * SlowDowns(events[..k], events[k].id))
  {
    RecordIsHistory(states, events, interval, k, events[k].id);
    IntervalLaw(states, events, interval, k, events[k].id);
    assert IsStep(states[k], events[k], states[k + 1], interval);
  }

  // ----- The service -----

  datatype Error = InvalidGrant | ExpiredToken | AccessDenied | SlowDown | AuthorizationPending | InvalidRequest

  datatype Outcome = Delivered | Notified | Refused(error: Error)

  class CibaService {
    const interval: int
    const lifetime: int
    var requests: Requests
    ghost var states: seq<Requests>
    ghost var events: seq<Event>

    ghost predicate Valid()
      reads this
    {
      IsRun(states, events, interval) && |states| == |events| + 1 && states[|events|] == requests
    }

    constructor (interval: int, lifetime: int)
      ensures Valid() && requests == map[] && this.interval == interval && this.lifetime == lifetime && events == []
    {
      this.interval, this.lifetime, requests := interval, lifetime, map[];
      states, events := [map[]], [];
    }

    ghost method Record(e: Event)
      requires IsRun(states, events, interval) && IsStep(states[|events|], e, requests, interval)
      modifies this`states, this`events
      ensures Valid() && events == old(events) + [e]
    {
      hide IsStep;
      states, events := states + [requests], events + [e];
    }

    /** start, once the request has been checked; the identifier is a fresh random value. */
    method StartRequest(id: string, clientId: string, mode: Mode, certificate: Option<string>, requestedExpiry: int, now: int) returns (ok: bool)
      requires Valid() && id !in requests
      modifies this
      ensures Valid()
      ensures ok <==> 1 <= requestedExpiry <= lifetime
      ensures ok ==> events == old(events) + [Start(id, clientId, now + requestedExpiry, mode, certificate)]
      ensures !ok ==> requests == old(requests) && events == old(events)
    {
      hide IsRun;
      if !(1 <= requestedExpiry <= lifetime) {
        return false;
      }
      requests := requests[id := Request(clientId, now + requestedExpiry, interval, mode, certificate, None, false, false, None)];
      Record(Start(id, clientId, now + requestedExpiry, mode, certificate));
      return true;
    }

    /** _record. */
    method Lookup(id: string, at: int) returns (refusal: Option<Error>)
      ensures refusal.None? <==> Open(requests, id, at)
      ensures refusal == Some(ExpiredToken) <==> id in requests && !requests[id].used && at > requests[id].expiresAt
      ensures refusal in [None, Some(InvalidGrant), Some(ExpiredToken)]
    {
      if id !in requests || requests[id].used {
        return Some(InvalidGrant);
      }
      if at > requests[id].expiresAt {
        return Some(ExpiredToken);
      }
      return None;
    }

    /** approve: it does not look at `denied`, and in push mode it delivers at once. */
    method ApproveRequest(id: string, subject: string, knownSubject: bool, at: int) returns (out: Outcome)
      requires Valid()
      modifies this
      ensures Valid()
      ensures out.Refused? <==> !Open(old(requests), id, at) || !knownSubject
      ensures out.Refused? ==> requests == old(requests) && events == old(events)
      ensures out == Notified ==> events == old(events) + [Approve(id, subject, at)]
      ensures out == Delivered ==> events == old(events) + [PushTokens(id, subject, at)]
      ensures out == Delivered <==> !out.Refused? && old(requests)[id].mode == Push
    {
      hide IsRun;
      var refusal := Lookup(id, at);
      if refusal.Some? {
        return Refused(refusal.value);
      }
      if !knownSubject {
        return Refused(InvalidRequest);
      }
      var record := requests[id];
      if record.mode != Push {
        requests := requests[id := record.(subject := Some(subject))];
        Record(Approve(id, subject, at));
        return Notified;
      }
      requests := requests[id := record.(subject := Some(subject), used := true)];
      Record(PushTokens(id, subject, at));
      return Delivered;
    }

    /** deny. */
    method DenyRequest(id: string, at: int) returns (refusal: Option<Error>)
      requires Valid()
      modifies this
      ensures Valid()
      ensures refusal.None? <==> Open(old(requests), id, at)
      ensures events == if refusal.None? then old(events) + [Deny(id, at)] else old(events)
    {
      hide IsRun;
      refusal := Lookup(id, at);
      if refusal.None? {
        requests := requests[id := requests[id].(denied := true)];
        Record(Deny(id, at));
      }
    }

    /** token. `bound` says that the client's tokens are bound to its certificate. */
    method Token(id: string, clientId: string, bound: bool, certificate: Option<string>, at: int, now: int) returns (out: Outcome)
      requires Valid()
      modifies this
      ensures Valid()
      ensures out == Delivered <==>
        Polls(old(requests), id, clientId, at) && old(requests)[id].subject.Some? && (bound ==> certificate == old(requests)[id].certificate)
      ensures out == Delivered ==> events == old(events) + [Redeem(id, clientId, at)]
      ensures out == Refused(SlowDown) <==>
        Polls(old(requests), id, clientId, at) && old(requests)[id].subject.None? && Early(old(requests)[id], now)
      ensures out == Refused(SlowDown) ==> events == old(events) + [TooFast(id, clientId, at, now)]
      ensures out == Refused(AuthorizationPending) <==>
        Polls(old(requests), id, clientId, at) && old(requests)[id].subject.None? && !Early(old(requests)[id], now)
      ensures out == Refused(AuthorizationPending) ==> events == old(events) + [Pending(id, clientId, at, now)]
      ensures out in [Delivered, Refused(SlowDown), Refused(AuthorizationPending)] || (events == old(events) && requests == old(requests))
    {
      hide IsRun;
      var refusal := Lookup(id, at);
      if refusal.Some? {
        return Refused(refusal.value);
      }
      var record := requests[id];
      if record.clientId != clientId || record.mode == Push {
        return Refused(InvalidGrant);
      }
      if record.denied {
        return Refused(AccessDenied);
      }
      if record.subject.None? {
        if record.lastPolledAt.Some? && now - record.lastPolledAt.value < record.interval {
          requests := requests[id := record.(interval := record.interval + 5, lastPolledAt := Some(now))];
          Record(TooFast(id, clientId, at, now));
          return Refused(SlowDown);
        }
        requests := requests[id := record.(lastPolledAt := Some(now))];
        Record(Pending(id, clientId, at, now));
        return Refused(AuthorizationPending);
      }
      if bound && certificate != record.certificate {
        return Refused(InvalidGrant);
      }
      requests := requests[id := record.(used := true)];
      Record(Redeem(id, clientId, at));
      return Delivered;
    }
  }
}
