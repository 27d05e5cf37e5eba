/** The token endpoints (authlab/oauth/authorization_server.py); every call is one event of the run. */
module OAuthServer {
  import opened OAuthState
  import opened OAuthFamilies
  import opened OAuthEffects
  import opened Wrappers

  /** What the grants read of a client that has been authenticated. */
  datatype Client = Client(id: string, isPublic: bool, rotates: bool, scopes: seq<string>)

  datatype Error =
    | InvalidRequest | InvalidGrant | InvalidScope | InvalidDPoPProof | PkceFailed | UnauthorizedClient
    | ExpiredToken | AccessDenied | SlowDown | AuthorizationPending

  datatype Outcome = Tokens(access: string, refresh: Option<string>, scope: seq<string>) | Refused(error: Error)

  // ----- Which event a request is -----

  /** Everything the code grant checks once the code is known and unused. */
  predicate CanRedeem(st: State, client: Client, value: string, redirectUri: Option<string>, verifierMatches: bool,
                      offered: Binding, at: int)
  {
    && value in st.codes && !st.codes[value].used
    && var c := st.codes[value];
    && c.clientId == client.id && at <= c.expiresAt && redirectUri == Some(c.redirectUri)
    && (if c.challenge != "" then verifierMatches else !client.isPublic)
    && (c.dpopJkt != "" ==> c.dpopJkt == offered.jkt)
  }

  function CodeEvent(st: State, client: Client, value: string, redirectUri: Option<string>, verifierMatches: bool,
                     offered: Binding, v: Values, at: int, now: int): Event
  {
    if value in st.codes && st.codes[value].used then ReplayCode(value)
    else if CanRedeem(st, client, value, redirectUri, verifierMatches, offered, at) then RedeemCode(value, client.id, offered, v, at, now)
    else Nothing
  }

  /** The scope a refresh asks for: all of the token's when none is named. */
  function AskedScope(t: RefreshToken, requested: seq<string>): seq<string> {
    if requested == [] then t.scope else requested
  }

  function RefreshEvent(st: State, client: Client, value: string, requested: seq<string>, offered: Binding,
                        v: Values, at: int, now: int): Event
  {
    if value !in st.refresh then Nothing
    else
      var t := st.refresh[value];
      var scope := AskedScope(t, requested);
      if !t.Live() then ReuseRefresh(value)
      else if !CanRefresh(st, value, client.id, scope, offered, at) then Nothing
      else if client.rotates then Rotate(value, client.id, scope, offered, v, at, now)
      else Renew(value, client.id, scope, offered, v, at, now)
  }

  function DeviceEvent(st: State, client: Client, value: string, offered: Binding, v: Values, at: int, now: int): Event {
    if value !in st.devices || st.devices[value].clientId != client.id then Nothing
    else
      var d := st.devices[value];
      if at > d.expiresAt || d.denied then Nothing
      else if !d.approved then PollDevice(value, at)
      else RedeemDevice(value, client.id, offered, v, at, now)
  }

  function RevokeEvent(st: State, client: Client, value: string): Event {
    if value in st.access && st.access[value].clientId == client.id then RevokeAccess(value, client.id)
    else if value in st.refresh && st.refresh[value].clientId == client.id then RevokeRefresh(value, client.id)
    else Nothing
  }

  // ----- Which refusal a request meets -----

  /** PkceFailed and InvalidDPoPProof are for requests that lack nothing but the right verifier, or the right key. */
  predicate RefusesCode(st: State, client: Client, value: string, redirectUri: Option<string>, verifierMatches: bool,
                        offered: Binding, at: int, error: Error)
  {
    if value == "" then error == InvalidRequest
    else if value !in st.codes then error == InvalidGrant
    else
      var rightKey := offered.(jkt := st.codes[value].dpopJkt);
      && error in {InvalidGrant, PkceFailed, InvalidDPoPProof}
      && (error == PkceFailed <==>
            !verifierMatches && st.codes[value].challenge != "" && CanRedeem(st, client, value, redirectUri, true, rightKey, at))
      && (error == InvalidDPoPProof <==> CanRedeem(st, client, value, redirectUri, verifierMatches, rightKey, at))
  }

  /** InvalidScope is for requests that would get the token's own scope. */
  predicate RefusesRefresh(st: State, client: Client, value: string, offered: Binding, at: int, error: Error) {
    if value == "" then error == InvalidRequest
    else if value !in st.refresh then error == InvalidGrant
    else
      var t := st.refresh[value];
      && error in {InvalidGrant, InvalidScope, InvalidDPoPProof}
      && (error == InvalidScope <==> CanRefresh(st, value, client.id, t.scope, offered, at))
      && (error == InvalidDPoPProof <==>
            t.cnf.jkt != "" && t.cnf.jkt != offered.jkt && CanRefresh(st, value, client.id, t.scope, t.cnf, at))
  }

  predicate RefusesDevice(st: State, client: Client, value: string, at: int, error: Error) {
    if value == "" then error == InvalidRequest
    else if value !in st.devices || st.devices[value].clientId != client.id then error == InvalidGrant
    else
      var d := st.devices[value];
      && error in {ExpiredToken, AccessDenied, AuthorizationPending, SlowDown}
      && (error == ExpiredToken <==> at > d.expiresAt)
      && (error == AccessDenied <==> at <= d.expiresAt && d.denied)
      && (error == SlowDown ==> d.lastPolledAt != 0 && at - d.lastPolledAt < d.interval)
      && (error == AuthorizationPending ==> d.lastPolledAt == 0 || at - d.lastPolledAt >= d.interval)
  }

  /** The checks on an unused code, in their order. */
  function CodeRefusal(code: Code, client: Client, redirectUri: Option<string>, verifierMatches: bool, offered: Binding, at: int): Option<Error> {
    if code.clientId != client.id then Some(InvalidGrant)
    else if at > code.expiresAt then Some(InvalidGrant)
    else if redirectUri != Some(code.redirectUri) then Some(InvalidGrant)
    else if code.challenge != "" && !verifierMatches then Some(PkceFailed)
    else if code.challenge == "" && client.isPublic then Some(InvalidGrant)
    else if code.dpopJkt != "" && code.dpopJkt != offered.jkt then Some(InvalidDPoPProof)
    else None
  }

  lemma CodeRefusalMeans(st: State, client: Client, value: string, redirectUri: Option<string>, verifierMatches: bool,
                         offered: Binding, at: int)
    requires value != "" && value in st.codes && !st.codes[value].used
    ensures var refusal := CodeRefusal(st.codes[value], client, redirectUri, verifierMatches, offered, at);
      && (refusal.None? <==> CanRedeem(st, client, value, redirectUri, verifierMatches, offered, at))
      && (refusal.Some? ==> RefusesCode(st, client, value, redirectUri, verifierMatches, offered, at, refusal.value))
  {
  }

  /** The checks on a live refresh token, in their order. */
  function RefreshRefusal(token: RefreshToken, client: Client, requested: seq<string>, offered: Binding, at: int): Option<Error> {
    if token.clientId != client.id then Some(InvalidGrant)
    else if at > token.expiresAt then Some(InvalidGrant)
    else if token.cnf.jkt != "" && token.cnf.jkt != offered.jkt then Some(InvalidDPoPProof)
    else if token.cnf.x5t != "" && token.cnf.x5t != offered.x5t then Some(InvalidGrant)
    else if requested != [] && exists s :: s in requested && s !in token.scope then Some(InvalidScope)
    else None
  }

  lemma RefreshRefusalMeans(st: State, client: Client, value: string, requested: seq<string>, offered: Binding, at: int)
    requires value != "" && value in st.refresh && st.refresh[value].Live()
    ensures var refusal := RefreshRefusal(st.refresh[value], client, requested, offered, at);
      && (refusal.None? <==> CanRefresh(st, value, client.id, AskedScope(st.refresh[value], requested), offered, at))
      && (refusal.Some? ==> RefusesRefresh(st, client, value, offered, at, refusal.value))
      && (refusal.None? ==> client.id == st.refresh[value].clientId && Merge(st.refresh[value].cnf, offered) == MergedBinding(st.refresh[value], offered))
  {
  }

  /** `token.cnf or cnf`. */
  function MergedBinding(token: RefreshToken, offered: Binding): Binding {
    Binding(
      if token.cnf.jkt != "" then token.cnf.jkt else offered.jkt,
      if token.cnf.x5t != "" then token.cnf.x5t else offered.x5t)
  }

  lemma CodeEventEnabled(st: State, client: Client, value: string, redirectUri: Option<string>, verifierMatches: bool,
                         offered: Binding, v: Values, at: int, now: int)
    requires Fresh(st, v)
    ensures Enabled(st, CodeEvent(st, client, value, redirectUri, verifierMatches, offered, v, at, now))
  {
  }

  lemma RefreshEventEnabled(st: State, client: Client, value: string, requested: seq<string>, offered: Binding,
                            v: Values, at: int, now: int)
    requires Fresh(st, v)
    ensures Enabled(st, RefreshEvent(st, client, value, requested, offered, v, at, now))
  {
  }

  lemma DeviceEventEnabled(st: State, client: Client, value: string, offered: Binding, v: Values, at: int, now: int)
    requires Fresh(st, v)
    ensures Enabled(st, DeviceEvent(st, client, value, offered, v, at, now))
  {
  }

  lemma RevokeEventEnabled(st: State, client: Client, value: string)
    ensures Enabled(st, RevokeEvent(st, client, value))
  {
  }

  /** The values that a loop over a record map has still to look at. */
  lemma SizeGrows(done: set<string>, v: string)
    requires v !in done
    ensures |done + {v}| == |done| + 1
  {
  }

  ghost predicate FamilyDone(before: RefreshTokens, after: RefreshTokens, left: set<string>, family: string) {
    && after.Keys == before.Keys
    && forall v :: v in before ==>
      after[v] == if v !in left && before[v].familyId == family then before[v].(revoked := true) else before[v]
  }

  ghost predicate AccessDone(before: AccessTokens, after: AccessTokens, left: set<string>, clientId: string, subject: string) {
    && after.Keys == before.Keys
    && forall v :: v in before ==>
      after[v] == if v !in left && AccessOf(before[v], clientId, subject) then before[v].(revoked := true) else before[v]
  }

  ghost predicate RefreshDone(before: RefreshTokens, after: RefreshTokens, left: set<string>, clientId: string, subject: string) {
    && after.Keys == before.Keys
    && forall v :: v in before ==>
      after[v] == if v !in left && before[v].clientId == clientId && before[v].subject == subject then before[v].(revoked := true) else before[v]
  }

  lemma FamilyDoneStep(before: RefreshTokens, now: RefreshTokens, left: set<string>, family: string, v: string)
    requires FamilyDone(before, now, left, family) && v in left && v in before
    ensures now[v] == before[v]
    ensures before[v].familyId == family && !before[v].revoked ==>
      FamilyDone(before, now[v := now[v].(revoked := true)], left - {v}, family)
    ensures !(before[v].familyId == family && !before[v].revoked) ==> FamilyDone(before, now, left - {v}, family)
  {
  }

  lemma FamilyNotBegun(before: RefreshTokens, family: string)
    ensures FamilyDone(before, before, before.Keys, family)
  {
  }

  lemma AccessNotBegun(before: AccessTokens, clientId: string, subject: string)
    ensures AccessDone(before, before, before.Keys, clientId, subject)
  {
  }

  lemma FamilyAllDone(before: RefreshTokens, now: RefreshTokens, family: string)
    requires FamilyDone(before, now, {}, family)
    ensures now == RevokeFamily(before, family)
  {
  }

  lemma AccessDoneStep(before: AccessTokens, now: AccessTokens, left: set<string>, clientId: string, subject: string, v: string)
    requires AccessDone(before, now, left, clientId, subject) && v in left && v in before
    ensures now[v] == before[v]
    ensures AccessOf(before[v], clientId, subject) && !before[v].revoked ==>
      AccessDone(before, now[v := now[v].(revoked := true)], left - {v}, clientId, subject)
    ensures !(AccessOf(before[v], clientId, subject) && !before[v].revoked) ==> AccessDone(before, now, left - {v}, clientId, subject)
  {
  }

  lemma AccessAllDone(before: AccessTokens, now: AccessTokens, clientId: string, subject: string)
    requires AccessDone(before, now, {}, clientId, subject)
    ensures now == RevokeAccessOf(before, clientId, subject)
  {
  }

  class AuthorizationServer {
    const config: Config
    var codes: map<string, Code>
    var access: AccessTokens
    var refresh: RefreshTokens
    var devices: map<string, DeviceCode>
    ghost var drawn: set<string>
    ghost var states: seq<State>
    ghost var events: seq<Event>

    ghost function Now(): State
      reads this
    {
      State(config, codes, access, refresh, devices, drawn)
    }

    /** The calls so far are a run, and the present state is its last. */
    ghost predicate Valid()
      reads this
    {
      IsRun(states, events) && |states| == |events| + 1 && states[|events|] == Now()
    }

    constructor (config: Config)
      ensures Valid() && Now() == Initial(config) && events == []
    {
      this.config := config;
      codes, access, refresh, devices, drawn := map[], map[], map[], map[], {};
      states, events := [Initial(config)], [];
    }

    ghost method Record(e: Event)
      requires IsRun(states, events) && Step(states[|events|], e, Now())
      modifies this`states, this`events
      ensures Valid() && events == old(events) + [e] && Leaves(old(states)[|old(events)|], e, Now())
    {
      hide Step, Leaves;
      RecordLeaves(e);
      states, events := states + [Now()], events + [e];
    }

    lemma RecordLeaves(e: Event)
      requires IsRun(states, events) && Step(states[|events|], e, Now())
      ensures Leaves(states[|events|], e, Now())
    {
      hide Apply, Leaves, Chains, AllDrawn, IsRun, Enabled;
      RunStep(states, events, 0);
      InvAlways(states, events, |events|);
      StepLeaves(states[|events|], e);
    }

    /** In every state the server can reach, families are chains with at most one live token. */
    lemma Reachable()
      requires Valid()
      ensures Inv(Now())
    {
      InvAlways(states, events, |events|);
    }

    // ----- The store's loops -----

    /** revoke_refresh_family, with its count of tokens that were not revoked yet. */
    method RevokeRefreshFamily(family: string) returns (count: nat)
      modifies this`refresh
      ensures refresh == RevokeFamily(old(refresh), family)
      ensures count == |set v | v in old(refresh) && old(refresh)[v].familyId == family && !old(refresh)[v].revoked|
    {
      hide FamilyDone, RevokeFamily;
      count := 0;
      ghost var newly: set<string>, before := {}, refresh;
      FamilyNotBegun(before, family);
      var left := refresh.Keys;
      while left != {}
        invariant left <= before.Keys && refresh.Keys == before.Keys && FamilyDone(before, refresh, left, family)
        invariant forall v :: v in newly <==> v in before && v !in left && before[v].familyId == family && !before[v].revoked
        invariant count == |newly|
        decreases left
      {
        var v :| v in left;
        FamilyDoneStep(before, refresh, left, family, v);
        if refresh[v].familyId == family && !refresh[v].revoked {
          refresh := refresh[v := refresh[v].(revoked := true)];
          count := count + 1;
          SizeGrows(newly, v);
          newly := newly + {v};
        }
        left := left - {v};
      }
      FamilyAllDone(before, refresh, family);
      assert newly == set v | v in before && before[v].familyId == family && !before[v].revoked;
    }

    /** revoke_access_for_family_subject. */
    method RevokeAccessFor(clientId: string, subject: string) returns (count: nat)
      modifies this`access
      ensures access == RevokeAccessOf(old(access), clientId, subject)
      ensures count == |set v | v in old(access) && AccessOf(old(access)[v], clientId, subject) && !old(access)[v].revoked|
    {
      hide AccessDone, RevokeAccessOf, AccessOf;
      count := 0;
      ghost var newly: set<string>, before := {}, access;
      AccessNotBegun(before, clientId, subject);
      var left := access.Keys;
      while left != {}
        invariant left <= before.Keys && access.Keys == before.Keys && AccessDone(before, access, left, clientId, subject)
        invariant forall v :: v in newly <==> v in before && v !in left && AccessOf(before[v], clientId, subject) && !before[v].revoked
        invariant count == |newly|
        decreases left
      {
        var v :| v in left;
        AccessDoneStep(before, access, left, clientId, subject, v);
        if AccessOf(access[v], clientId, subject) && !access[v].revoked {
          access := access[v := access[v].(revoked := true)];
          count := count + 1;
          SizeGrows(newly, v);
          newly := newly + {v};
        }
        left := left - {v};
      }
      AccessAllDone(before, access, clientId, subject);
      assert newly == set v | v in before && AccessOf(before[v], clientId, subject) && !before[v].revoked;
    }

    /** The second loop of a code replay. */
    method RevokeRefreshFor(clientId: string, subject: string)
      modifies this`refresh
      ensures refresh == RevokeRefreshOf(old(refresh), clientId, subject)
    {
      ghost var before := refresh;
      var left := refresh.Keys;
      while left != {}
        invariant left <= before.Keys && RefreshDone(before, refresh, left, clientId, subject)
        decreases left
      {
        var v :| v in left;
        if refresh[v].clientId == clientId && refresh[v].subject == subject {
          refresh := refresh[v := refresh[v].(revoked := true)];
        }
        left := left - {v};
      }
    }

    /** _issue_token_set. */
    method IssueTokenSet(g: Grant, withRefresh: bool, family: string, v: Values, now: int) returns (out: Outcome)
      modifies this`access, this`refresh, this`drawn
      ensures Now() == Mint(old(Now()), g, withRefresh, family, v, now)
      ensures out == Tokens(v.access, if withRefresh && g.subject.Some? then Some(v.refresh) else None, g.scope)
    {
      access := access[v.access := AccessToken(g.clientId, g.subject, g.scope, now + config.accessLifetime, now, g.audience, false, g.cnf, g.details)];
      var issued := None;
      if withRefresh && g.subject.Some? {
        refresh := refresh[v.refresh := RefreshToken(
          g.clientId, g.subject.value, g.scope, now + config.refreshLifetime, family, false, false, None, g.cnf, g.details)];
        issued := Some(v.refresh);
      }
      drawn := drawn + {v.access, v.refresh, v.family};
      return Tokens(v.access, issued, g.scope);
    }

    function FirstResource(): seq<string> {
      if config.knownResources == [] then [] else config.knownResources[..1]
    }

    // ----- Codes -----

    /** issue_authorization_code. */
    method IssueAuthorizationCode(value: string, code: Code, now: int)
      requires Valid() && value !in drawn && !code.used && code.expiresAt == now + config.codeLifetime
      modifies this
      ensures Valid() && events == old(events) + [IssueCode(value, code)]
    {
      hide IsRun;
      Reachable();
      assert value !in codes;
      codes := codes[value := code];
      drawn := drawn + {value};
      assert Step(states[|events|], IssueCode(value, code), Now());
      Record(IssueCode(value, code));
    }

    /** _grant_authorization_code. The clock is read for the expiry and again when the tokens are minted. */
    method GrantAuthorizationCode(client: Client, value: string, redirectUri: Option<string>, verifierMatches: bool,
                                  offered: Binding, v: Values, at: int, now: int) returns (out: Outcome)
      requires Valid() && Fresh(Now(), v)
      modifies this
      ensures Valid()
      ensures value != "" ==> events == old(events) + [CodeEvent(old(Now()), client, value, redirectUri, verifierMatches, offered, v, at, now)]
      ensures value == "" ==> Now() == old(Now()) && events == old(events)
      ensures out.Tokens? <==> value != "" && CanRedeem(old(Now()), client, value, redirectUri, verifierMatches, offered, at)
      ensures out.Tokens? ==> out == Tokens(v.access, Some(v.refresh), old(codes)[value].scope)
      ensures value != "" ==> Leaves(old(Now()), CodeEvent(old(Now()), client, value, redirectUri, verifierMatches, offered, v, at, now), Now())
      ensures out.Refused? ==> RefusesCode(old(Now()), client, value, redirectUri, verifierMatches, offered, at, out.error)
    {
      hide IsRun, Leaves, CodeRefusal, RevokeAccessOf, RevokeRefreshOf;
      ghost var e := CodeEvent(Now(), client, value, redirectUri, verifierMatches, offered, v, at, now);
      CodeEventEnabled(Now(), client, value, redirectUri, verifierMatches, offered, v, at, now);
      if value == "" {
        return Refused(InvalidRequest);
      }
      if value !in codes {
        Record(e);
        return Refused(InvalidGrant);
      }
      var code := codes[value];
      if code.used {
        var revoked := RevokeAccessFor(code.clientId, code.subject);
        RevokeRefreshFor(code.clientId, code.subject);
        Record(e);
        return Refused(InvalidGrant);
      }
      CodeRefusalMeans(Now(), client, value, redirectUri, verifierMatches, offered, at);
      var refusal := CodeRefusal(code, client, redirectUri, verifierMatches, offered, at);
      if refusal.Some? {
        Record(e);
        return Refused(refusal.value);
      }
      codes := codes[value := code.(used := true)];
      var g := Grant(client.id, Some(code.subject), code.scope, if code.resource != [] then code.resource else FirstResource(), offered, code.details);
      out := IssueTokenSet(g, true, v.family, v, now);
      Record(e);
    }

    // ----- Refreshing -----

    /** _grant_refresh_token. Reuse is looked for before the client is compared. */
    method GrantRefreshToken(client: Client, value: string, requested: seq<string>, offered: Binding,
                             v: Values, at: int, now: int) returns (out: Outcome)
      requires Valid() && Fresh(Now(), v)
      modifies this
      ensures Valid()
      ensures value != "" ==> events == old(events) + [RefreshEvent(old(Now()), client, value, requested, offered, v, at, now)]
      ensures value == "" ==> Now() == old(Now()) && events == old(events)
      ensures out.Tokens? <==>
        value != "" && value in old(refresh)
        && CanRefresh(old(Now()), value, client.id, AskedScope(old(refresh)[value], requested), offered, at)
      ensures out.Tokens? ==>
        out == Tokens(v.access, if client.rotates then Some(v.refresh) else None, AskedScope(old(refresh)[value], requested))
      ensures value != "" ==> Leaves(old(Now()), RefreshEvent(old(Now()), client, value, requested, offered, v, at, now), Now())
      ensures out.Refused? ==> RefusesRefresh(old(Now()), client, value, offered, at, out.error)
    {
      hide IsRun, Leaves, RefreshRefusal, RevokeAccessOf, RevokeFamily;
      ReachableDrawn();
      ghost var e := RefreshEvent(Now(), client, value, requested, offered, v, at, now);
      RefreshEventEnabled(Now(), client, value, requested, offered, v, at, now);
      if value == "" {
        return Refused(InvalidRequest);
      }
      if value !in refresh {
        Record(e);
        return Refused(InvalidGrant);
      }
      var token := refresh[value];
      if token.used || token.revoked {
        var count := RevokeRefreshFamily(token.familyId);
        var _ := RevokeAccessFor(token.clientId, token.subject);
        Record(e);
        return Refused(InvalidGrant);
      }
      var scope := if requested == [] then token.scope else requested;
      RefreshRefusalMeans(Now(), client, value, requested, offered, at);
      var refusal := RefreshRefusal(token, client, requested, offered, at);
      if refusal.Some? {
        Record(e);
        return Refused(refusal.value);
      }
      var cnf := MergedBinding(token, offered);
      var g := Grant(client.id, Some(token.subject), scope, FirstResource(), cnf, token.details);
      if !client.rotates {
        out := IssueTokenSet(g, false, token.familyId, v, now);
        Record(e);
        return;
      }
      out := RotateInto(token, value, g, v, now);
      Record(e);
    }

    /** token.used = True; the new token set; token.rotated_to = the new token. */
    method RotateInto(token: RefreshToken, value: string, g: Grant, v: Values, now: int) returns (out: Outcome)
      requires value in refresh && refresh[value] == token && g.subject.Some? && v.refresh != value
      modifies this`access, this`refresh, this`drawn
      ensures Now() == Mint(old(Now()).(refresh := old(refresh)[value := token.(used := true, rotatedTo := Some(v.refresh))]),
                            g, true, token.familyId, v, now)
      ensures out == Tokens(v.access, Some(v.refresh), g.scope)
    {
      refresh := refresh[value := token.(used := true)];
      out := IssueTokenSet(g, true, token.familyId, v, now);
      refresh := refresh[value := refresh[value].(rotatedTo := out.refresh)];
    }

    /** _grant_client_credentials: no user, so no refresh token. */
    method GrantClientCredentials(client: Client, requested: seq<string>, offered: Binding, v: Values, now: int) returns (out: Outcome)
      requires Valid() && Fresh(Now(), v)
      modifies this
      ensures Valid()
      ensures out.Tokens? <==> !client.isPublic && (client.scopes != [] ==> ScopeWithin(AskedOf(client, requested), client.scopes))
      ensures out.Tokens? ==> out == Tokens(v.access, None, AskedOf(client, requested))
      ensures out.Refused? ==> out == Refused(if client.isPublic then UnauthorizedClient else InvalidScope) && events == old(events)
      ensures out.Tokens? ==> events == old(events) + [Issue(
        Grant(client.id, None, AskedOf(client, requested), FirstResource(), offered, []), false, v, now)]
      ensures refresh == old(refresh) && codes == old(codes) && devices == old(devices)
    {
      hide IsRun;
      if client.isPublic {
        return Refused(UnauthorizedClient);
      }
      var scope := AskedOf(client, requested);
      if client.scopes != [] && exists s :: s in scope && s !in client.scopes {
        return Refused(InvalidScope);
      }
      var g := Grant(client.id, None, scope, FirstResource(), offered, []);
      out := IssueTokenSet(g, false, v.family, v, now);
      Record(Issue(g, false, v, now));
    }

    // ----- Devices -----

    /** device_authorization. */
    method DeviceAuthorization(client: Client, scope: seq<string>, value: string, userCode: string, now: int)
      requires Valid() && value !in drawn
      modifies this
      ensures Valid()
      ensures events == old(events) + [StartDevice(value, DeviceCode(
        userCode, client.id, scope, now + config.deviceLifetime, 5, false, false, None, 0))]
    {
      hide IsRun;
      ReachableDrawn();
      var device := DeviceCode(userCode, client.id, scope, now + config.deviceLifetime, 5, false, false, None, 0);
      devices := devices[value := device];
      drawn := drawn + {value};
      Record(StartDevice(value, device));
    }

    lemma ReachableDrawn()
      requires Valid()
      ensures devices.Keys <= drawn && codes.Keys <= drawn && access.Keys <= drawn && refresh.Keys <= drawn
    {
      hide Chains;
      Reachable();
    }

    /** The first device, in the store's order, that shows this user code. */
    method FindDevice(userCode: string) returns (found: Option<string>)
      ensures found.Some? ==> found.value in devices && devices[found.value].userCode == userCode
      ensures found.None? ==> forall d :: d in devices ==> devices[d].userCode != userCode
    {
      var left := devices.Keys;
      while left != {}
        invariant left <= devices.Keys && forall d :: d in devices && d !in left ==> devices[d].userCode != userCode
        decreases left
      {
        var d :| d in left;
        if devices[d].userCode == userCode {
          return Some(d);
        }
        left := left - {d};
      }
      return None;
    }

    /** approve_device: false when no device shows the code, ExpiredToken as None. */
    method Approve(userCode: string, subject: string, at: int) returns (approved: Option<bool>)
      requires Valid()
      modifies this
      ensures Valid()
      ensures approved == Some(true) ==>
        exists d :: d in old(devices) && old(devices)[d].userCode == userCode && events == old(events) + [ApproveDevice(d, subject, at)]
      ensures approved != Some(true) ==> Now() == old(Now()) && events == old(events)
      ensures approved == Some(false) <==> forall d :: d in old(devices) ==> old(devices)[d].userCode != userCode
    {
      hide IsRun;
      var found := FindDevice(userCode);
      if found.None? {
        return Some(false);
      }
      var d := found.value;
      if at > devices[d].expiresAt {
        return None;
      }
      devices := devices[d := devices[d].(approved := true, subject := Some(subject))];
      Record(ApproveDevice(d, subject, at));
      return Some(true);
    }

    /** deny_device: it does not look at the expiry. */
    method Deny(userCode: string) returns (denied: bool)
      requires Valid()
      modifies this
      ensures Valid()
      ensures denied ==> exists d :: d in old(devices) && old(devices)[d].userCode == userCode && events == old(events) + [DenyDevice(d)]
      ensures !denied ==> Now() == old(Now()) && events == old(events) && forall d :: d in devices ==> devices[d].userCode != userCode
    {
      hide IsRun;
      var found := FindDevice(userCode);
      if found.None? {
        return false;
      }
      var d := found.value;
      devices := devices[d := devices[d].(denied := true)];
      Record(DenyDevice(d));
      return true;
    }

    /** _grant_device_code. */
    method GrantDeviceCode(client: Client, value: string, offered: Binding, v: Values, at: int, now: int) returns (out: Outcome)
      requires Valid() && Fresh(Now(), v)
      modifies this
      ensures Valid()
      ensures value != "" ==> events == old(events) + [DeviceEvent(old(Now()), client, value, offered, v, at, now)]
      ensures value == "" ==> Now() == old(Now()) && events == old(events)
      ensures out.Tokens? <==> value != "" && DeviceEvent(old(Now()), client, value, offered, v, at, now).RedeemDevice?
      ensures out == Refused(SlowDown) <==>
        value != "" && DeviceEvent(old(Now()), client, value, offered, v, at, now).PollDevice?
        && old(devices)[value].lastPolledAt != 0 && at - old(devices)[value].lastPolledAt < old(devices)[value].interval
      ensures out.Tokens? ==> value !in devices
      ensures value != "" ==> Leaves(old(Now()), DeviceEvent(old(Now()), client, value, offered, v, at, now), Now())
      ensures out.Refused? ==> RefusesDevice(old(Now()), client, value, at, out.error)
    {
      hide IsRun, Leaves;
      ghost var e := DeviceEvent(Now(), client, value, offered, v, at, now);
      DeviceEventEnabled(Now(), client, value, offered, v, at, now);
      if value == "" {
        return Refused(InvalidRequest);
      }
      if value !in devices || devices[value].clientId != client.id {
        Record(e);
        return Refused(InvalidGrant);
      }
      var device := devices[value];
      if at > device.expiresAt {
        Record(e);
        return Refused(ExpiredToken);
      }
      if device.denied {
        Record(e);
        return Refused(AccessDenied);
      }
      if !device.approved {
        var tooFast := device.lastPolledAt != 0 && at - device.lastPolledAt < device.interval;
        devices := devices[value := device.(lastPolledAt := at)];
        Record(e);
        return Refused(if tooFast then SlowDown else AuthorizationPending);
      }
      devices := devices - {value};
      var g := Grant(client.id, device.subject, device.scope, FirstResource(), offered, []);
      out := IssueTokenSet(g, true, v.family, v, now);
      Record(e);
    }

    // ----- Revocation and introspection -----

    /** revoke: an access token alone, or a refresh token with its family; other clients' tokens are left. */
    method Revoke(client: Client, value: string)
      requires Valid()
      modifies this
      ensures Valid() && events == old(events) + [RevokeEvent(old(Now()), client, value)]
    {
      hide IsRun;
      ghost var e := RevokeEvent(Now(), client, value);
      RevokeEventEnabled(Now(), client, value);
      if value in access && access[value].clientId == client.id {
        access := access[value := access[value].(revoked := true)];
      } else if value in refresh && refresh[value].clientId == client.id {
        var count := RevokeRefreshFamily(refresh[value].familyId);
      }
      Record(e);
    }

    /** introspect: the fields reported are those of the record. An unknown, revoked or expired token has none. */
    method Introspect(value: string, at: int) returns (record: Option<AccessToken>)
      ensures record.Some? <==> Active(Now(), value, at)
      ensures record.Some? ==> record.value == access[value]
    {
      if value !in access || access[value].revoked || at > access[value].expiresAt {
        return None;
      }
      return Some(access[value]);
    }
  }

  /** `scope or " ".join(client.scopes)`. */
  function AskedOf(client: Client, requested: seq<string>): seq<string> {
    if requested == [] then client.scopes else requested
  }
}
