/** The token state of the authorization server, and what can happen to it (authlab/oauth/models.py). */
module OAuthState {
  import opened Wrappers

  /** The keys a token is bound to; the empty string stands for "not bound". */
  datatype Binding = Binding(jkt: string, x5t: string)

  datatype Code = Code(
    clientId: string,
    subject: string,
    redirectUri: string,
    scope: seq<string>,
    expiresAt: int,
    challenge: string,
    used: bool,
    resource: seq<string>,
    dpopJkt: string,
    details: seq<string>)

  datatype AccessToken = AccessToken(
    clientId: string,
    subject: Option<string>,
    scope: seq<string>,
    expiresAt: int,
    issuedAt: int,
    audience: seq<string>,
    revoked: bool,
    cnf: Binding,
    details: seq<string>)

  datatype RefreshToken = RefreshToken(
    clientId: string,
    subject: string,
    scope: seq<string>,
    expiresAt: int,
    familyId: string,
    used: bool,
    revoked: bool,
    rotatedTo: Option<string>,
    cnf: Binding,
    details: seq<string>)
  {
    predicate Live() { !used && !revoked }
  }

  datatype DeviceCode = DeviceCode(
    userCode: string,
    clientId: string,
    scope: seq<string>,
    expiresAt: int,
    interval: int,
    approved: bool,
    denied: bool,
    subject: Option<string>,
    lastPolledAt: int)

  type AccessTokens = map<string, AccessToken>

  type RefreshTokens = map<string, RefreshToken>

  datatype Config = Config(
    accessLifetime: int,
    refreshLifetime: int,
    codeLifetime: int,
    deviceLifetime: int,
    knownResources: seq<string>)

  /** `drawn` holds every random value handed out so far; none is drawn twice. */
  datatype State = State(
    config: Config,
    codes: map<string, Code>,
    access: AccessTokens,
    refresh: RefreshTokens,
    devices: map<string, DeviceCode>,
    drawn: set<string>)

  // ----- Minting -----

  /** Whom a token set is for. */
  datatype Grant = Grant(
    clientId: string,
    subject: Option<string>,
    scope: seq<string>,
    audience: seq<string>,
    cnf: Binding,
    details: seq<string>)

  /** The random values of one token set. */
  datatype Values = Values(access: string, refresh: string, family: string)

  predicate Fresh(st: State, v: Values) {
    && v.access !in st.drawn && v.refresh !in st.drawn && v.family !in st.drawn
    && v.access != v.refresh && v.access != v.family && v.refresh != v.family
  }

  function NewAccess(st: State, g: Grant, now: int): AccessToken {
    AccessToken(g.clientId, g.subject, g.scope, now + st.config.accessLifetime, now, g.audience, false, g.cnf, g.details)
  }

  function NewRefresh(st: State, g: Grant, family: string, now: int): RefreshToken
    requires g.subject.Some?
  {
    RefreshToken(g.clientId, g.subject.value, g.scope, now + st.config.refreshLifetime, family, false, false, None, g.cnf, g.details)
  }

  /** _issue_token_set: an access token and, for a user who is to get one, a refresh token. */
  function Mint(st: State, g: Grant, withRefresh: bool, family: string, v: Values, now: int): State {
    st.(access := st.access[v.access := NewAccess(st, g, now)],
        refresh := if withRefresh && g.subject.Some? then st.refresh[v.refresh := NewRefresh(st, g, family, now)] else st.refresh,
        drawn := st.drawn + {v.access, v.refresh, v.family})
  }

  function DefaultAudience(st: State): seq<string> {
    if st.config.knownResources == [] then [] else st.config.knownResources[..1]
  }

  // ----- Revocation -----

  function RevokeFamily(refresh: RefreshTokens, family: string): RefreshTokens {
    map v | v in refresh :: if refresh[v].familyId == family then refresh[v].(revoked := true) else refresh[v]
  }

  function RevokeRefreshOf(refresh: RefreshTokens, clientId: string, subject: string): RefreshTokens {
    map v | v in refresh ::
      if refresh[v].clientId == clientId && refresh[v].subject == subject then refresh[v].(revoked := true) else refresh[v]
  }

  function RevokeAccessOf(access: AccessTokens, clientId: string, subject: string): AccessTokens {
    map v | v in access ::
      if access[v].clientId == clientId && access[v].subject == Some(subject) then access[v].(revoked := true) else access[v]
  }

  // ----- Refreshing -----

  predicate ScopeWithin(scope: seq<string>, bound: seq<string>) {
    forall s :: s in scope ==> s in bound
  }

  /** `token.cnf or cnf`: a binding the token already has wins. */
  function Merge(kept: Binding, offered: Binding): Binding {
    Binding(if kept.jkt != "" then kept.jkt else offered.jkt, if kept.x5t != "" then kept.x5t else offered.x5t)
  }

  predicate BindingMet(kept: Binding, offered: Binding) {
    (kept.jkt != "" ==> kept.jkt == offered.jkt) && (kept.x5t != "" ==> kept.x5t == offered.x5t)
  }

  function RefreshGrant(st: State, t: RefreshToken, scope: seq<string>, offered: Binding): Grant {
    Grant(t.clientId, Some(t.subject), scope, DefaultAudience(st), Merge(t.cnf, offered), t.details)
  }

  function CodeGrant(st: State, c: Code, offered: Binding): Grant {
    Grant(c.clientId, Some(c.subject), c.scope, if c.resource != [] then c.resource else DefaultAudience(st), offered, c.details)
  }

  function DeviceGrant(st: State, d: DeviceCode, offered: Binding): Grant {
    Grant(d.clientId, d.subject, d.scope, DefaultAudience(st), offered, [])
  }

  // ----- Events -----

  /** What one request does to the state. `at` is the clock of the expiry check, `now` that of the minting. */
  datatype Event =
    | Nothing
    | IssueCode(value: string, code: Code)
    | RedeemCode(value: string, clientId: string, offered: Binding, v: Values, at: int, now: int)
    | ReplayCode(value: string)
    | Rotate(value: string, clientId: string, scope: seq<string>, offered: Binding, v: Values, at: int, now: int)
    | Renew(value: string, clientId: string, scope: seq<string>, offered: Binding, v: Values, at: int, now: int)
    | ReuseRefresh(value: string)
    | Issue(g: Grant, withRefresh: bool, v: Values, now: int)
    | StartDevice(value: string, device: DeviceCode)
    | ApproveDevice(value: string, subject: string, at: int)
    | DenyDevice(value: string)
    | PollDevice(value: string, at: int)
    | RedeemDevice(value: string, clientId: string, offered: Binding, v: Values, at: int, now: int)
    | RevokeAccess(value: string, clientId: string)
    | RevokeRefresh(value: string, clientId: string)

  predicate CanRefresh(st: State, value: string, clientId: string, scope: seq<string>, offered: Binding, at: int) {
    && value in st.refresh && st.refresh[value].Live()
    && st.refresh[value].clientId == clientId && at <= st.refresh[value].expiresAt
    && BindingMet(st.refresh[value].cnf, offered) && ScopeWithin(scope, st.refresh[value].scope)
  }

  predicate Enabled(st: State, e: Event) {
    match e
    case Nothing => true
    case IssueCode(value, code) => value !in st.drawn && value !in st.codes && !code.used
    case RedeemCode(value, clientId, offered, v, at, now) =>
      && value in st.codes && !st.codes[value].used && st.codes[value].clientId == clientId && at <= st.codes[value].expiresAt
      && (st.codes[value].dpopJkt != "" ==> st.codes[value].dpopJkt == offered.jkt) && Fresh(st, v)
    case ReplayCode(value) => value in st.codes && st.codes[value].used
    case Rotate(value, clientId, scope, offered, v, at, now) => CanRefresh(st, value, clientId, scope, offered, at) && Fresh(st, v)
    case Renew(value, clientId, scope, offered, v, at, now) => CanRefresh(st, value, clientId, scope, offered, at) && Fresh(st, v)
    case ReuseRefresh(value) => value in st.refresh && !st.refresh[value].Live()
    case Issue(g, withRefresh, v, now) => Fresh(st, v)
    case StartDevice(value, device) => value !in st.drawn && value !in st.devices
    case ApproveDevice(value, subject, at) => value in st.devices && at <= st.devices[value].expiresAt
    case DenyDevice(value) => value in st.devices
    case PollDevice(value, at) => value in st.devices
    case RedeemDevice(value, clientId, offered, v, at, now) =>
      && value in st.devices && st.devices[value].clientId == clientId && at <= st.devices[value].expiresAt
      && st.devices[value].approved && !st.devices[value].denied && Fresh(st, v)
    case RevokeAccess(value, clientId) => value in st.access && st.access[value].clientId == clientId
    case RevokeRefresh(value, clientId) => value in st.refresh && st.refresh[value].clientId == clientId
  }

  function Apply(st: State, e: Event): State
    requires Enabled(st, e)
  {
    match e
    case Nothing => st
    case IssueCode(value, code) => st.(codes := st.codes[value := code], drawn := st.drawn + {value})
    case RedeemCode(value, clientId, offered, v, at, now) =>
      Mint(st.(codes := st.codes[value := st.codes[value].(used := true)]), CodeGrant(st, st.codes[value], offered), true, v.family, v, now)
    case ReplayCode(value) =>
      var c := st.codes[value];
      st.(access := RevokeAccessOf(st.access, c.clientId, c.subject), refresh := RevokeRefreshOf(st.refresh, c.clientId, c.subject))
    case Rotate(value, clientId, scope, offered, v, at, now) =>
      var t := st.refresh[value];
      Mint(st.(refresh := st.refresh[value := t.(used := true, rotatedTo := Some(v.refresh))]),
           RefreshGrant(st, t, scope, offered), true, t.familyId, v, now)
    case Renew(value, clientId, scope, offered, v, at, now) =>
      var t := st.refresh[value];
      Mint(st, RefreshGrant(st, t, scope, offered), false, t.familyId, v, now)
    case ReuseRefresh(value) =>
      var t := st.refresh[value];
      st.(access := RevokeAccessOf(st.access, t.clientId, t.subject), refresh := RevokeFamily(st.refresh, t.familyId))
    case Issue(g, withRefresh, v, now) => Mint(st, g, withRefresh, v.family, v, now)
    case StartDevice(value, device) => st.(devices := st.devices[value := device], drawn := st.drawn + {value})
    case ApproveDevice(value, subject, at) =>
      st.(devices := st.devices[value := st.devices[value].(approved := true, subject := Some(subject))])
    case DenyDevice(value) => st.(devices := st.devices[value := st.devices[value].(denied := true)])
    case PollDevice(value, at) => st.(devices := st.devices[value := st.devices[value].(lastPolledAt := at)])
    case RedeemDevice(value, clientId, offered, v, at, now) =>
      Mint(st.(devices := st.devices - {value}), DeviceGrant(st, st.devices[value], offered), true, v.family, v, now)
    case RevokeAccess(value, clientId) => st.(access := st.access[value := st.access[value].(revoked := true)])
    case RevokeRefresh(value, clientId) => st.(refresh := RevokeFamily(st.refresh, st.refresh[value].familyId))
  }

  ghost predicate Step(st: State, e: Event, next: State) {
    Enabled(st, e) && next == Apply(st, e)
  }

  // ----- Runs -----

  function Initial(config: Config): State {
    State(config, map[], map[], map[], map[], {})
  }

  /** states[i] is the state before events[i]. */
  ghost predicate IsRun(states: seq<State>, events: seq<Event>) {
    && |states| == |events| + 1 && states[0] == Initial(states[0].config)
    && forall i :: 0 <= i < |events| ==> Step(states[i], events[i], states[i + 1])
  }
}
