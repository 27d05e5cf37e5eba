/** What an exchange puts on record, and what a replayed code takes back (authlab/oauth/authorization_server.py). */
module OAuthEffects {
  import opened OAuthState
  import opened OAuthFamilies
  import opened Wrappers

  // ----- The records of an exchange -----

  /** `known_resources[:1]`. */
  function FirstKnown(config: Config): seq<string> {
    if |config.knownResources| > 0 then [config.knownResources[0]] else []
  }

  /** A binding the token has stays; where it has none the one presented is taken. */
  function Bound(kept: string, offered: string): string {
    if kept == "" then offered else kept
  }

  /** The exchange adds one access token. */
  ghost predicate AddsAccess(st: State, next: State, value: string, a: AccessToken) {
    && value !in st.access && value in next.access && next.access[value] == a
    && next.access.Keys == st.access.Keys + {value} && forall w :: w in st.access ==> next.access[w] == st.access[w]
  }

  ghost predicate AddsRefresh(st: State, next: State, value: string, t: RefreshToken) {
    && value !in st.refresh && value in next.refresh && next.refresh[value] == t
    && next.refresh.Keys == st.refresh.Keys + {value}
  }

  /** The other refresh tokens are as they were. */
  ghost predicate KeepsRefresh(st: State, next: State, but: set<string>) {
    forall w :: w in st.refresh && w !in but ==> w in next.refresh && next.refresh[w] == st.refresh[w]
  }

  /** A code's tokens: for its client and subject, with its scope and details, bound to the keys presented. */
  ghost predicate CodeRecords(st: State, e: Event, next: State)
    requires e.RedeemCode? && e.value in st.codes
  {
    var c := st.codes[e.value];
    && next.config == st.config && next.devices == st.devices && next.codes == st.codes[e.value := c.(used := true)]
    && AddsAccess(st, next, e.v.access, AccessToken(
         c.clientId, Some(c.subject), c.scope, e.now + st.config.accessLifetime, e.now,
         if c.resource == [] then FirstKnown(st.config) else c.resource, false, e.offered, c.details))
    && AddsRefresh(st, next, e.v.refresh, RefreshToken(
         c.clientId, c.subject, c.scope, e.now + st.config.refreshLifetime, e.v.family, false, false, None, e.offered, c.details))
    && KeepsRefresh(st, next, {})
  }

  /** A device's tokens are for the user who approved it; the device is gone. */
  ghost predicate DeviceRecords(st: State, e: Event, next: State)
    requires e.RedeemDevice? && e.value in st.devices
  {
    var d := st.devices[e.value];
    && next.config == st.config && next.codes == st.codes && next.devices == st.devices - {e.value}
    && AddsAccess(st, next, e.v.access, AccessToken(
         d.clientId, d.subject, d.scope, e.now + st.config.accessLifetime, e.now, FirstKnown(st.config), false, e.offered, []))
    && KeepsRefresh(st, next, {})
    && (match d.subject
        case Some(subject) => AddsRefresh(st, next, e.v.refresh, RefreshToken(
          d.clientId, subject, d.scope, e.now + st.config.refreshLifetime, e.v.family, false, false, None, e.offered, []))
        case None => next.refresh == st.refresh)
  }

  /** The access token of a refresh. */
  ghost predicate RefreshedAccess(st: State, e: Event, next: State)
    requires (e.Rotate? || e.Renew?) && e.value in st.refresh
  {
    var t := st.refresh[e.value];
    && next.config == st.config && next.codes == st.codes && next.devices == st.devices
    && AddsAccess(st, next, e.v.access, AccessToken(
         t.clientId, Some(t.subject), e.scope, e.now + st.config.accessLifetime, e.now, FirstKnown(st.config), false,
         Binding(Bound(t.cnf.jkt, e.offered.jkt), Bound(t.cnf.x5t, e.offered.x5t)), t.details))
  }

  /** A rotation marks the old token and adds its successor in the family; otherwise the refresh tokens stay. */
  ghost predicate RefreshRecords(st: State, e: Event, next: State)
    requires (e.Rotate? || e.Renew?) && e.value in st.refresh
  {
    var t := st.refresh[e.value];
    && RefreshedAccess(st, e, next)
    && if e.Renew? then next.refresh == st.refresh
       else
         && AddsRefresh(st, next, e.v.refresh, RefreshToken(
              t.clientId, t.subject, e.scope, e.now + st.config.refreshLifetime, t.familyId, false, false, None,
              Binding(Bound(t.cnf.jkt, e.offered.jkt), Bound(t.cnf.x5t, e.offered.x5t)), t.details))
         && KeepsRefresh(st, next, {e.value})
         && next.refresh[e.value] == t.(used := true, rotatedTo := Some(e.v.refresh))
  }

  /** Tokens without a code behind them: with a refresh token only for a user. */
  ghost predicate IssuedRecords(st: State, e: Event, next: State)
    requires e.Issue?
  {
    && next.config == st.config && next.codes == st.codes && next.devices == st.devices
    && AddsAccess(st, next, e.v.access, AccessToken(
         e.g.clientId, e.g.subject, e.g.scope, e.now + st.config.accessLifetime, e.now, e.g.audience, false, e.g.cnf, e.g.details))
    && KeepsRefresh(st, next, {})
    && (match e.g.subject
        case Some(subject) =>
          if e.withRefresh then AddsRefresh(st, next, e.v.refresh, RefreshToken(
            e.g.clientId, subject, e.g.scope, e.now + st.config.refreshLifetime, e.v.family, false, false, None, e.g.cnf, e.g.details))
          else next.refresh == st.refresh
        case None => next.refresh == st.refresh)
  }

  lemma IssueLeaves(st: State, e: Event)
    requires AllDrawn(st) && Enabled(st, e) && e.Issue?
    ensures IssuedRecords(st, e, Apply(st, e))
  {
  }

  /** Every exchange leaves exactly the records its code, device or refresh token calls for. */
  lemma ExchangeRecords(st: State, e: Event)
    requires AllDrawn(st) && Enabled(st, e)
    ensures e.RedeemCode? ==> CodeRecords(st, e, Apply(st, e))
    ensures e.RedeemDevice? ==> DeviceRecords(st, e, Apply(st, e))
    ensures e.Rotate? || e.Renew? ==> RefreshRecords(st, e, Apply(st, e))
  {
    if e.RedeemCode? {
      CodeLeaves(st, e);
    } else if e.RedeemDevice? {
      DeviceLeaves(st, e);
    } else if e.Rotate? || e.Renew? {
      RefreshLeaves(st, e);
    }
  }

  lemma CodeLeaves(st: State, e: Event)
    requires AllDrawn(st) && Enabled(st, e) && e.RedeemCode?
    ensures CodeRecords(st, e, Apply(st, e))
  {
  }

  lemma DeviceLeaves(st: State, e: Event)
    requires AllDrawn(st) && Enabled(st, e) && e.RedeemDevice?
    ensures DeviceRecords(st, e, Apply(st, e))
  {
  }

  lemma RefreshLeaves(st: State, e: Event)
    requires AllDrawn(st) && Enabled(st, e) && (e.Rotate? || e.Renew?)
    ensures RefreshRecords(st, e, Apply(st, e))
  {
    hide Apply, RefreshRecords, AllDrawn, Enabled;
    if e.Rotate? {
      RotationLeaves(st, e);
    } else {
      RenewalLeaves(st, e);
    }
  }

  lemma RotationLeaves(st: State, e: Event)
    requires AllDrawn(st) && Enabled(st, e) && e.Rotate?
    ensures RefreshRecords(st, e, Apply(st, e))
  {
    hide ScopeWithin;
  }

  lemma RenewalLeaves(st: State, e: Event)
    requires AllDrawn(st) && Enabled(st, e) && e.Renew?
    ensures RefreshRecords(st, e, Apply(st, e))
  {
    hide ScopeWithin;
  }

  // ----- Revocations -----

  /** Exactly the access tokens of the client and subject are revoked; nothing else about them changes. */
  ghost predicate RevokesAccess(st: State, next: State, clientId: string, subject: string) {
    && next.access.Keys == st.access.Keys
    && forall w :: w in st.access ==> next.access[w] == st.access[w].(
         revoked := st.access[w].revoked || (st.access[w].clientId == clientId && st.access[w].subject == Some(subject)))
  }

  ghost predicate RevokesOwned(st: State, next: State, clientId: string, subject: string) {
    forall w :: w in st.refresh ==> w in next.refresh && next.refresh[w] == st.refresh[w].(
      revoked := st.refresh[w].revoked || (st.refresh[w].clientId == clientId && st.refresh[w].subject == subject))
  }

  ghost predicate RevokesFamily(st: State, next: State, family: string) {
    forall w :: w in st.refresh ==> w in next.refresh && next.refresh[w] == st.refresh[w].(
      revoked := st.refresh[w].revoked || st.refresh[w].familyId == family)
  }

  /** What a replayed code, a reused refresh token and the revocation endpoint take away. */
  ghost predicate Revokes(st: State, e: Event, next: State) {
    && next.config == st.config && next.codes == st.codes && next.devices == st.devices && next.drawn == st.drawn
    && next.refresh.Keys == st.refresh.Keys
    && match e
       case ReplayCode(value) =>
         && value in st.codes && RevokesAccess(st, next, st.codes[value].clientId, st.codes[value].subject)
         && RevokesOwned(st, next, st.codes[value].clientId, st.codes[value].subject)
       case ReuseRefresh(value) =>
         && value in st.refresh && RevokesAccess(st, next, st.refresh[value].clientId, st.refresh[value].subject)
         && RevokesFamily(st, next, st.refresh[value].familyId)
       case RevokeRefresh(value, clientId) =>
         value in st.refresh && next.access == st.access && RevokesFamily(st, next, st.refresh[value].familyId)
       case RevokeAccess(value, clientId) =>
         value in st.access && next.refresh == st.refresh && next.access == st.access[value := st.access[value].(revoked := true)]
       case _ => false
  }

  lemma RevocationMeans(st: State, e: Event)
    requires Enabled(st, e) && (e.ReplayCode? || e.ReuseRefresh? || e.RevokeRefresh? || e.RevokeAccess?)
    ensures Revokes(st, e, Apply(st, e))
  {
  }

  // ----- Devices and codes -----

  /** The remaining events touch one code or one device. */
  ghost predicate Marks(st: State, e: Event, next: State) {
    && next.config == st.config && next.access == st.access && next.refresh == st.refresh
    && match e
       case Nothing => next == st
       case IssueCode(value, code) => next.codes == st.codes[value := code] && next.devices == st.devices
       case StartDevice(value, device) => next.codes == st.codes && next.devices == st.devices[value := device]
       case ApproveDevice(value, subject, at) =>
         next.codes == st.codes && value in st.devices
         && next.devices == st.devices[value := st.devices[value].(approved := true, subject := Some(subject))]
       case DenyDevice(value) =>
         next.codes == st.codes && value in st.devices && next.devices == st.devices[value := st.devices[value].(denied := true)]
       case PollDevice(value, at) =>
         next.codes == st.codes && value in st.devices && next.devices == st.devices[value := st.devices[value].(lastPolledAt := at)]
       case _ => false
  }

  /** What an event leaves on record. */
  ghost predicate Leaves(st: State, e: Event, next: State) {
    if e.RedeemCode? then e.value in st.codes && CodeRecords(st, e, next)
    else if e.RedeemDevice? then e.value in st.devices && DeviceRecords(st, e, next)
    else if e.Rotate? || e.Renew? then e.value in st.refresh && RefreshRecords(st, e, next)
    else if e.ReplayCode? || e.ReuseRefresh? || e.RevokeRefresh? || e.RevokeAccess? then Revokes(st, e, next)
    else if e.Issue? then IssuedRecords(st, e, next)
    else Marks(st, e, next)
  }

  lemma MarksMeans(st: State, e: Event)
    requires Enabled(st, e)
    requires e.Nothing? || e.IssueCode? || e.StartDevice? || e.ApproveDevice? || e.DenyDevice? || e.PollDevice?
    ensures Marks(st, e, Apply(st, e))
  {
  }

  lemma InEnabled(st: State, e: Event)
    requires Enabled(st, e)
    ensures e.RedeemCode? ==> e.value in st.codes
    ensures e.RedeemDevice? ==> e.value in st.devices
    ensures e.Rotate? || e.Renew? ==> e.value in st.refresh
  {
  }

  /** Every step of every run leaves on record what it should. */
  lemma StepLeaves(st: State, e: Event)
    requires AllDrawn(st) && Enabled(st, e)
    ensures Leaves(st, e, Apply(st, e))
  {
    hide Apply, CodeRecords, DeviceRecords, RefreshRecords, IssuedRecords, Revokes, Marks, AllDrawn, Enabled;
    InEnabled(st, e);
    if e.RedeemCode? || e.RedeemDevice? || e.Rotate? || e.Renew? {
      ExchangeRecords(st, e);
    } else if e.ReplayCode? || e.ReuseRefresh? || e.RevokeRefresh? || e.RevokeAccess? {
      RevocationMeans(st, e);
    } else if e.Issue? {
      IssueLeaves(st, e);
    } else {
      MarksMeans(st, e);
    }
  }

  lemma RunLeaves(states: seq<State>, events: seq<Event>, i: nat)
    requires IsRun(states, events) && i < |events|
    ensures Leaves(states[i], events[i], states[i + 1])
  {
    hide Apply, Leaves, Chains, AllDrawn, IsRun, Enabled;
    RunStep(states, events, i);
    InvAlways(states, events, i);
    StepLeaves(states[i], events[i]);
  }

  // ----- A replayed code ends everything it produced -----

  ghost predicate FamilyOwned(st: State, family: string, clientId: string, subject: string) {
    family in st.drawn && forall v :: v in st.refresh && st.refresh[v].familyId == family ==>
      st.refresh[v].clientId == clientId && st.refresh[v].subject == subject
  }

  lemma FamilyOwnedStep(st: State, e: Event, family: string, clientId: string, subject: string)
    requires FamilyOwned(st, family, clientId, subject) && AllDrawn(st) && Enabled(st, e)
    ensures FamilyOwned(Apply(st, e), family, clientId, subject)
  {
    hide RevokeAccessOf, NewAccess, BindingMet, ScopeWithin, Merge, DefaultAudience;
  }

  lemma {:induction false} FamilyOwnedAlways(states: seq<State>, events: seq<Event>, family: string, clientId: string, subject: string, i: nat, k: nat)
    requires IsRun(states, events) && i <= k < |states| && FamilyOwned(states[i], family, clientId, subject)
    ensures FamilyOwned(states[k], family, clientId, subject)
    decreases k - i
  {
    hide *;
    if i < k {
      FamilyOwnedAlways(states, events, family, clientId, subject, i, k - 1);
      InvAlways(states, events, k - 1);
      InvParts(states[k - 1]);
      RunStep(states, events, k - 1);
      FamilyOwnedStep(states[k - 1], events[k - 1], family, clientId, subject);
    }
  }

  lemma InvParts(st: State)
    requires Inv(st)
    ensures AllDrawn(st)
  {
  }

  /** The family of a code belongs to its client and subject. */
  lemma CodeFamilyOwned(states: seq<State>, events: seq<Event>, i: nat, k: nat)
    requires IsRun(states, events) && i < |events| && i < k < |states| && events[i].RedeemCode?
    ensures events[i].value in states[i].codes
    ensures var c := states[i].codes[events[i].value]; FamilyOwned(states[k], events[i].v.family, c.clientId, c.subject)
  {
    hide Apply, IsRun, Chains;
    InvAlways(states, events, i);
    RunStep(states, events, i);
    CodeStartsFamily(states[i], events[i]);
    var c := states[i].codes[events[i].value];
    FamilyOwnedAlways(states, events, events[i].v.family, c.clientId, c.subject, i + 1, k);
  }

  lemma CodeStartsFamily(st: State, e: Event)
    requires AllDrawn(st) && Enabled(st, e) && e.RedeemCode?
    ensures FamilyOwned(Apply(st, e), e.v.family, st.codes[e.value].clientId, st.codes[e.value].subject)
  {
  }

  /** The event exchanges a refresh token of the family. */
  ghost predicate Refreshes(st: State, e: Event, family: string) {
    (e.Rotate? || e.Renew?) && e.value in st.refresh && st.refresh[e.value].familyId == family
  }

  /** An access token of the code's client and subject, minted between the exchange and the replay, is dead after it. */
  lemma MintedIsDead(states: seq<State>, events: seq<Event>, k: nat, m: nat, j: nat, value: string)
    requires IsRun(states, events) && j < k < |events| && k < m < |states| && events[k].ReplayCode?
    requires events[k].value in states[k].codes && value in states[j + 1].access
    requires AccessOf(states[j + 1].access[value], states[k].codes[events[k].value].clientId, states[k].codes[events[k].value].subject)
    ensures forall at :: !Active(states[m], value, at)
  {
    hide *;
    KeptAlways(states, events, j + 1, k);
    AccessStays(states[j + 1], states[k], value);
    ReplayedCodeKills(states, events, k, m, value);
  }

  lemma AccessStays(st: State, later: State, value: string)
    requires Kept(st, later) && value in st.access
    ensures value in later.access
    ensures forall clientId, subject :: AccessOf(st.access[value], clientId, subject) ==> AccessOf(later.access[value], clientId, subject)
  {
  }

  lemma SameCode(st: State, later: State, value: string)
    requires Kept(st, later) && value in st.codes
    ensures value in later.codes && later.codes[value] == st.codes[value].(used := later.codes[value].used)
  {
  }

  lemma ReplayRevokesFamily(st: State, e: Event, family: string)
    requires Enabled(st, e) && e.ReplayCode? && FamilyOwned(st, family, st.codes[e.value].clientId, st.codes[e.value].subject)
    ensures FamilyRevoked(Apply(st, e), family)
  {
  }

  lemma RevokedIsNotRefreshed(st: State, e: Event, family: string)
    requires Enabled(st, e) && FamilyRevoked(st, family)
    ensures !Refreshes(st, e, family)
  {
  }

  lemma RedeemedAccessOf(st: State, e: Event)
    requires Enabled(st, e) && e.RedeemCode?
    ensures e.value in st.codes && e.v.access in Apply(st, e).access
    ensures AccessOf(Apply(st, e).access[e.v.access], st.codes[e.value].clientId, st.codes[e.value].subject)
  {
  }

  lemma RefreshedAccessOf(st: State, e: Event, family: string, clientId: string, subject: string)
    requires Enabled(st, e) && Refreshes(st, e, family) && FamilyOwned(st, family, clientId, subject)
    ensures e.v.access in Apply(st, e).access
    ensures AccessOf(Apply(st, e).access[e.v.access], clientId, subject)
  {
  }

  /**
   A code that was exchanged and is presented again: from then on the access token of the exchange is inactive, every
   refresh token of its family is revoked, and so is every access token that came from refreshing in the family.
   */
  lemma ReplayEndsWhatTheCodeProduced(states: seq<State>, events: seq<Event>, i: nat, k: nat, m: nat)
    requires IsRun(states, events) && i < k < |events| && k < m < |states|
    requires events[i].RedeemCode? && events[k].ReplayCode? && events[k].value == events[i].value
    ensures forall at :: !Active(states[m], events[i].v.access, at)
    ensures forall v :: v in states[m].refresh && states[m].refresh[v].familyId == events[i].v.family ==> states[m].refresh[v].revoked
    ensures forall j :: i < j < |events| && Refreshes(states[j], events[j], events[i].v.family) ==>
      j < k && forall at :: !Active(states[m], events[j].v.access, at)
  {
    hide Apply, Enabled, IsRun, Kept, FamilyOwned, FamilyRevoked, Active, AccessOf;
    var family := events[i].v.family;
    RunStep(states, events, i);
    RunStep(states, events, k);
    RedeemedAccessOf(states[i], events[i]);
    var c := states[i].codes[events[i].value];
    KeptAlways(states, events, i, k);
    SameCode(states[i], states[k], events[i].value);
    MintedIsDead(states, events, k, m, i, events[i].v.access);
    CodeFamilyOwned(states, events, i, k);
    ReplayRevokesFamily(states[k], events[k], family);
    FamilyRevokedAlways(states, events, family, k + 1, m);
    assert forall v :: v in states[m].refresh && states[m].refresh[v].familyId == family ==> states[m].refresh[v].revoked by {
      RevokedMeans(states[m], family);
    }
    forall j | i < j < |events| && Refreshes(states[j], events[j], family)
      ensures j < k && forall at :: !Active(states[m], events[j].v.access, at)
    {
      RefreshedBefore(states, events, i, k, j);
      RunStep(states, events, j);
      CodeFamilyOwned(states, events, i, j);
      RefreshedAccessOf(states[j], events[j], family, c.clientId, c.subject);
      MintedIsDead(states, events, k, m, j, events[j].v.access);
    }
  }

  lemma RevokedMeans(st: State, family: string)
    requires FamilyRevoked(st, family)
    ensures forall v :: v in st.refresh && st.refresh[v].familyId == family ==> st.refresh[v].revoked
  {
  }

  lemma RefreshedBefore(states: seq<State>, events: seq<Event>, i: nat, k: nat, j: nat)
    requires IsRun(states, events) && i < k < |events| && i < j < |events|
    requires events[i].RedeemCode? && events[k].ReplayCode? && events[k].value == events[i].value
    requires Refreshes(states[j], events[j], events[i].v.family)
    ensures j < k
  {
    hide Apply, Enabled, IsRun, Kept, FamilyOwned, FamilyRevoked;
    var family := events[i].v.family;
    RunStep(states, events, j);
    if j > k {
      RunStep(states, events, k);
      RunStep(states, events, i);
      KeptAlways(states, events, i, k);
      CodeFamilyOwned(states, events, i, k);
      SameCode(states[i], states[k], events[i].value);
      ReplayRevokesFamily(states[k], events[k], family);
      FamilyRevokedAlways(states, events, family, k + 1, j);
      RevokedIsNotRefreshed(states[j], events[j], family);
    }
  }
}
