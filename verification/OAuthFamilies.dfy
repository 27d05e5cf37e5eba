/** What every run of the authorization server keeps (authlab/oauth/authorization_server.py). */
module OAuthFamilies {
  import opened OAuthState
  import opened Wrappers

  // ----- Refresh families are chains -----

  /** What a rotation hands on: the owner, the details, every binding, and at most the scope. */
  ghost predicate Narrows(t: RefreshToken, next: RefreshToken) {
    && next.clientId == t.clientId && next.subject == t.subject && next.details == t.details
    && ScopeWithin(next.scope, t.scope)
    && (t.cnf.jkt != "" ==> next.cnf.jkt == t.cnf.jkt)
    && (t.cnf.x5t != "" ==> next.cnf.x5t == t.cnf.x5t)
  }

  /** `chain` lists the family in the order of rotation: all but the last are used, each rotated to the one after it. */
  ghost predicate IsChain(refresh: RefreshTokens, family: string, chain: seq<string>) {
    && |chain| > 0
    && (forall i, j :: 0 <= i < j < |chain| ==> chain[i] != chain[j])
    && (forall v :: v in chain <==> v in refresh && refresh[v].familyId == family)
    && (forall i :: 0 <= i < |chain| - 1 ==> Follows(refresh, chain[i], chain[i + 1]))
    && IsUnused(refresh, chain[|chain| - 1])
  }

  ghost predicate Follows(refresh: RefreshTokens, v: string, next: string) {
    v in refresh && next in refresh
    && refresh[v].used && refresh[v].rotatedTo == Some(next) && Narrows(refresh[v], refresh[next])
  }

  ghost predicate IsUnused(refresh: RefreshTokens, v: string) {
    v in refresh && !refresh[v].used && refresh[v].rotatedTo == None
  }

  ghost predicate HasChain(refresh: RefreshTokens, family: string) {
    exists chain :: IsChain(refresh, family, chain)
  }

  /** All values in the state were drawn. */
  ghost predicate AllDrawn(st: State) {
    && (forall v :: v in st.refresh ==> v in st.drawn && st.refresh[v].familyId in st.drawn)
    && (forall v :: v in st.codes || v in st.devices || v in st.access ==> v in st.drawn)
  }

  ghost predicate Chains(refresh: RefreshTokens) {
    forall v :: v in refresh ==> HasChain(refresh, refresh[v].familyId)
  }

  /** The invariant: every family is one chain, and all values in the state were drawn. */
  ghost predicate Inv(st: State) {
    Chains(st.refresh) && AllDrawn(st)
  }

  /** Only revocation marks differ, and none is taken back. */
  ghost predicate OnlyRevokes(before: RefreshTokens, after: RefreshTokens) {
    && before.Keys == after.Keys
    && forall v :: v in before ==> after[v] == before[v] || after[v] == before[v].(revoked := true)
  }

  lemma ChainAfterRevoking(before: RefreshTokens, after: RefreshTokens, family: string)
    requires OnlyRevokes(before, after) && HasChain(before, family)
    ensures HasChain(after, family)
  {
    var chain :| IsChain(before, family, chain);
    assert forall v :: v in before ==> after[v].familyId == before[v].familyId;
    assert forall i :: 0 <= i < |chain| - 1 ==> Follows(before, chain[i], chain[i + 1]);
    assert IsChain(after, family, chain);
  }

  lemma ChainOfOne(refresh: RefreshTokens, v: string, t: RefreshToken)
    requires v !in refresh && !t.used && t.rotatedTo == None
    requires forall w :: w in refresh ==> refresh[w].familyId != t.familyId
    ensures HasChain(refresh[v := t], t.familyId)
  {
    assert IsChain(refresh[v := t], t.familyId, [v]);
  }

  lemma ChainBeside(refresh: RefreshTokens, v: string, t: RefreshToken, family: string)
    requires v !in refresh && t.familyId != family && HasChain(refresh, family)
    ensures HasChain(refresh[v := t], family)
  {
    var chain :| IsChain(refresh, family, chain);
    var after := refresh[v := t];
    assert forall w :: w in chain ==> w != v;
    forall i | 0 <= i < |chain| - 1
      ensures Follows(after, chain[i], chain[i + 1])
    {
      assert Follows(refresh, chain[i], chain[i + 1]);
      assert chain[i] in chain && chain[i + 1] in chain;
    }
    assert chain[|chain| - 1] in chain;
    assert IsChain(after, family, chain);
  }

  function Rotated(refresh: RefreshTokens, v: string, newer: string, t: RefreshToken): RefreshTokens
    requires v in refresh
  {
    refresh[v := refresh[v].(used := true, rotatedTo := Some(newer))][newer := t]
  }

  lemma NarrowsMarked(t: RefreshToken, next: RefreshToken, newer: string)
    requires Narrows(t, next)
    ensures Narrows(t.(used := true, rotatedTo := Some(newer)), next)
  {
  }

  lemma NarrowsToMarked(t: RefreshToken, next: RefreshToken, newer: string)
    ensures Narrows(t, next) ==> Narrows(t, next.(used := true, rotatedTo := Some(newer)))
  {
  }

  /** Only the end of a chain can be rotated, and rotating it makes the chain one longer. */
  lemma ChainLonger(refresh: RefreshTokens, v: string, newer: string, t: RefreshToken)
    requires v in refresh && !refresh[v].used && newer !in refresh && HasChain(refresh, refresh[v].familyId)
    requires t.familyId == refresh[v].familyId && !t.used && t.rotatedTo == None && Narrows(refresh[v], t)
    ensures HasChain(Rotated(refresh, v, newer, t), t.familyId)
  {
    hide Narrows;
    var chain :| IsChain(refresh, t.familyId, chain);
    UnusedIsLast(refresh, t.familyId, chain, v);
    ChainExtended(refresh, newer, t, chain);
  }

  lemma UnusedIsLast(refresh: RefreshTokens, family: string, chain: seq<string>, v: string)
    requires IsChain(refresh, family, chain) && v in chain && !refresh[v].used
    ensures v == chain[|chain| - 1]
  {
    hide Narrows;
    var i :| 0 <= i < |chain| && chain[i] == v;
    assert i < |chain| - 1 ==> Follows(refresh, chain[i], chain[i + 1]);
  }

  lemma ChainExtended(refresh: RefreshTokens, newer: string, t: RefreshToken, chain: seq<string>)
    requires IsChain(refresh, t.familyId, chain) && newer !in refresh
    requires !t.used && t.rotatedTo == None && Narrows(refresh[chain[|chain| - 1]], t)
    ensures IsChain(Rotated(refresh, chain[|chain| - 1], newer, t), t.familyId, chain + [newer])
  {
    hide Narrows;
    var last := |chain| - 1;
    var v := chain[last];
    var after, longer := Rotated(refresh, v, newer, t), chain + [newer];
    NarrowsMarked(refresh[v], t, newer);
    forall k | 0 <= k < |longer| - 1
      ensures Follows(after, longer[k], longer[k + 1])
    {
      assert longer[k] == chain[k] && chain[k] in chain;
      if k < last {
        assert Follows(refresh, chain[k], chain[k + 1]);
        assert chain[k + 1] in chain && chain[k] != chain[last];
        NarrowsToMarked(refresh[chain[k]], refresh[v], newer);
      }
    }
    assert forall w :: w in longer <==> w in chain || w == newer;
  }

  lemma OtherChainKept(refresh: RefreshTokens, v: string, newer: string, t: RefreshToken, family: string)
    requires v in refresh && newer !in refresh && t.familyId == refresh[v].familyId != family && HasChain(refresh, family)
    ensures HasChain(Rotated(refresh, v, newer, t), family)
  {
    var chain :| IsChain(refresh, family, chain);
    var after := Rotated(refresh, v, newer, t);
    assert forall w :: w in chain ==> w != v && w != newer;
    forall i | 0 <= i < |chain| - 1
      ensures Follows(after, chain[i], chain[i + 1])
    {
      assert Follows(refresh, chain[i], chain[i + 1]);
      assert chain[i] in chain && chain[i + 1] in chain;
    }
    assert chain[|chain| - 1] in chain;
    assert IsChain(after, family, chain);
  }

  // ----- Every event keeps the invariant -----

  lemma ChainsRevoked(before: RefreshTokens, after: RefreshTokens)
    requires Chains(before) && OnlyRevokes(before, after)
    ensures Chains(after)
  {
    hide HasChain;
    forall v | v in after
      ensures HasChain(after, after[v].familyId)
    {
      assert v in before && after[v].familyId == before[v].familyId;
      ChainAfterRevoking(before, after, before[v].familyId);
    }
  }

  lemma ChainsAdded(refresh: RefreshTokens, v: string, t: RefreshToken)
    requires Chains(refresh) && v !in refresh && !t.used && t.rotatedTo == None
    requires forall w :: w in refresh ==> refresh[w].familyId != t.familyId
    ensures Chains(refresh[v := t])
  {
    hide HasChain;
    ChainOfOne(refresh, v, t);
    forall w | w in refresh
      ensures HasChain(refresh[v := t], refresh[w].familyId)
    {
      ChainBeside(refresh, v, t, refresh[w].familyId);
    }
  }

  lemma ChainsRotated(refresh: RefreshTokens, v: string, newer: string, t: RefreshToken)
    requires Chains(refresh) && v in refresh && !refresh[v].used && newer !in refresh
    requires t.familyId == refresh[v].familyId && !t.used && t.rotatedTo == None && Narrows(refresh[v], t)
    ensures Chains(Rotated(refresh, v, newer, t))
  {
    hide HasChain, Narrows;
    ChainLonger(refresh, v, newer, t);
    forall w | w in refresh && refresh[w].familyId != t.familyId
      ensures HasChain(Rotated(refresh, v, newer, t), refresh[w].familyId)
    {
      OtherChainKept(refresh, v, newer, t, refresh[w].familyId);
    }
  }

  lemma RevokingOnlyRevokes(st: State, family: string, clientId: string, subject: string)
    ensures OnlyRevokes(st.refresh, RevokeFamily(st.refresh, family))
    ensures OnlyRevokes(st.refresh, RevokeRefreshOf(st.refresh, clientId, subject))
  {
  }

  lemma RotationNarrows(st: State, t: RefreshToken, scope: seq<string>, offered: Binding, now: int)
    requires BindingMet(t.cnf, offered) && ScopeWithin(scope, t.scope)
    ensures Narrows(t, NewRefresh(st, RefreshGrant(st, t, scope, offered), t.familyId, now))
  {
  }

  lemma ChainsMinted(st: State, g: Grant, withRefresh: bool, v: Values, now: int)
    requires Chains(st.refresh) && AllDrawn(st) && Fresh(st, v)
    ensures Chains(Mint(st, g, withRefresh, v.family, v, now).refresh)
  {
    hide Chains;
    if withRefresh && g.subject.Some? {
      ChainsAdded(st.refresh, v.refresh, NewRefresh(st, g, v.family, now));
    }
  }

  lemma ChainsStep(st: State, e: Event)
    requires Chains(st.refresh) && AllDrawn(st) && Enabled(st, e)
    ensures Chains(Apply(st, e).refresh)
  {
    hide Chains, Narrows, OnlyRevokes, AllDrawn, RevokeFamily, RevokeRefreshOf, RevokeAccessOf;
    match e
    case RedeemCode(value, clientId, offered, v, at, now) =>
      var marked := st.(codes := st.codes[value := st.codes[value].(used := true)]);
      DrawnParts(st);
      AllDrawnIf(marked);
      ChainsMinted(marked, CodeGrant(st, st.codes[value], offered), true, v, now);
    case RedeemDevice(value, clientId, offered, v, at, now) =>
      var removed := st.(devices := st.devices - {value});
      DrawnParts(st);
      AllDrawnIf(removed);
      ChainsMinted(removed, DeviceGrant(st, st.devices[value], offered), true, v, now);
    case Issue(g, withRefresh, v, now) => ChainsMinted(st, g, withRefresh, v, now);
    case ReplayCode(value) =>
      RevokingOnlyRevokes(st, "", st.codes[value].clientId, st.codes[value].subject);
      ChainsRevoked(st.refresh, Apply(st, e).refresh);
    case ReuseRefresh(value) =>
      RevokingOnlyRevokes(st, st.refresh[value].familyId, "", "");
      ChainsRevoked(st.refresh, Apply(st, e).refresh);
    case RevokeRefresh(value, clientId) =>
      RevokingOnlyRevokes(st, st.refresh[value].familyId, "", "");
      ChainsRevoked(st.refresh, Apply(st, e).refresh);
    case Rotate(value, clientId, scope, offered, v, at, now) =>
      var t := st.refresh[value];
      DrawnParts(st);
      RotationNarrows(st, t, scope, offered, now);
      ChainsRotated(st.refresh, value, v.refresh, NewRefresh(st, RefreshGrant(st, t, scope, offered), t.familyId, now));
    case _ =>
  }

  lemma DrawnParts(st: State)
    requires AllDrawn(st)
    ensures forall v :: v in st.refresh ==> v in st.drawn && st.refresh[v].familyId in st.drawn
    ensures forall v :: v in st.codes || v in st.devices || v in st.access ==> v in st.drawn
  {
  }

  lemma AllDrawnIf(st: State)
    requires forall v :: v in st.refresh ==> v in st.drawn && st.refresh[v].familyId in st.drawn
    requires forall v :: v in st.codes || v in st.devices || v in st.access ==> v in st.drawn
    ensures AllDrawn(st)
  {
  }

  predicate Mints(e: Event) {
    e.RedeemCode? || e.RedeemDevice? || e.Rotate? || e.Renew? || e.Issue?
  }

  lemma DrawnStep(st: State, e: Event)
    requires AllDrawn(st) && Enabled(st, e)
    ensures AllDrawn(Apply(st, e))
  {
    hide Apply, Enabled, AllDrawn;
    if Mints(e) {
      DrawnWhenMinting(st, e);
    } else {
      DrawnOtherwise(st, e);
    }
  }

  lemma DrawnWhenMinting(st: State, e: Event)
    requires AllDrawn(st) && Enabled(st, e) && Mints(e)
    ensures AllDrawn(Apply(st, e))
  {
    hide Mint, CodeGrant, DeviceGrant, RefreshGrant, AllDrawn, RevokeFamily, RevokeRefreshOf, RevokeAccessOf;
    DrawnParts(st);
    match e
    case RedeemCode(value, clientId, offered, v, at, now) =>
      var marked := st.(codes := st.codes[value := st.codes[value].(used := true)]);
      AllDrawnIf(marked);
      DrawnMint(marked, CodeGrant(st, st.codes[value], offered), true, v.family, v, now);
    case RedeemDevice(value, clientId, offered, v, at, now) =>
      var removed := st.(devices := st.devices - {value});
      AllDrawnIf(removed);
      DrawnMint(removed, DeviceGrant(st, st.devices[value], offered), true, v.family, v, now);
    case Rotate(value, clientId, scope, offered, v, at, now) =>
      var t := st.refresh[value];
      var marked := st.(refresh := st.refresh[value := t.(used := true, rotatedTo := Some(v.refresh))]);
      AllDrawnIf(marked);
      DrawnMint(marked, RefreshGrant(st, t, scope, offered), true, t.familyId, v, now);
    case Renew(value, clientId, scope, offered, v, at, now) =>
      DrawnMint(st, RefreshGrant(st, st.refresh[value], scope, offered), false, st.refresh[value].familyId, v, now);
    case Issue(g, withRefresh, v, now) => DrawnMint(st, g, withRefresh, v.family, v, now);
  }

  lemma DrawnOtherwise(st: State, e: Event)
    requires AllDrawn(st) && Enabled(st, e) && !Mints(e)
    ensures AllDrawn(Apply(st, e))
  {
    hide Mint, AllDrawn, RevokeFamily, RevokeRefreshOf, RevokeAccessOf, CanRefresh, Fresh;
    DrawnParts(st);
    match e
    case ReplayCode(value) => RevokedDrawn(st, Apply(st, e), "", st.codes[value].clientId, st.codes[value].subject);
    case ReuseRefresh(value) =>
      var t := st.refresh[value];
      RevokedDrawn(st, Apply(st, e), t.familyId, t.clientId, t.subject);
    case RevokeRefresh(value, clientId) => RevokedDrawn(st, Apply(st, e), st.refresh[value].familyId, "", "");
    case IssueCode(value, code) => AllDrawnIf(Apply(st, e));
    case StartDevice(value, device) => AllDrawnIf(Apply(st, e));
    case ApproveDevice(value, subject, at) => AllDrawnIf(Apply(st, e));
    case DenyDevice(value) => AllDrawnIf(Apply(st, e));
    case PollDevice(value, at) => AllDrawnIf(Apply(st, e));
    case RevokeAccess(value, clientId) => AllDrawnIf(Apply(st, e));
    case _ =>
  }

  lemma RevokedDrawn(st: State, next: State, family: string, clientId: string, subject: string)
    requires AllDrawn(st) && next.codes == st.codes && next.devices == st.devices && next.drawn == st.drawn
    requires next.refresh == RevokeFamily(st.refresh, family) || next.refresh == RevokeRefreshOf(st.refresh, clientId, subject)
    requires next.access == st.access || next.access == RevokeAccessOf(st.access, clientId, subject)
    ensures AllDrawn(next)
  {
  }

  lemma DrawnMint(st: State, g: Grant, withRefresh: bool, family: string, v: Values, now: int)
    requires AllDrawn(st) && (family in st.drawn || family == v.family)
    ensures AllDrawn(Mint(st, g, withRefresh, family, v, now))
  {
  }

  /** Every event of the server keeps every family a single chain. */
  lemma InvStep(st: State, e: Event)
    requires Inv(st) && Enabled(st, e)
    ensures Inv(Apply(st, e))
  {
    hide Apply, Enabled, Chains, AllDrawn;
    ChainsStep(st, e);
    DrawnStep(st, e);
  }

  // ----- What the invariant means -----

  /** A family has at most one token that can still be exchanged. */
  lemma OneLive(st: State, v: string, w: string)
    requires Inv(st) && v in st.refresh && w in st.refresh && st.refresh[v].familyId == st.refresh[w].familyId
    requires st.refresh[v].Live() && st.refresh[w].Live()
    ensures v == w
  {
    hide Narrows;
    var family := st.refresh[v].familyId;
    var chain :| IsChain(st.refresh, family, chain);
    UnusedIsLast(st.refresh, family, chain, v);
    UnusedIsLast(st.refresh, family, chain, w);
  }

  /** From any token of a chain to any later one: same owner and details, kept bindings, no new scope. */
  lemma {:induction false} DescendantsNarrow(refresh: RefreshTokens, family: string, chain: seq<string>, i: nat, j: nat)
    requires IsChain(refresh, family, chain) && i <= j < |chain|
    ensures Narrows(refresh[chain[i]], refresh[chain[j]])
    decreases j - i
  {
    if i < j {
      DescendantsNarrow(refresh, family, chain, i, j - 1);
      assert Follows(refresh, chain[j - 1], chain[j - 1 + 1]);
    }
  }

  // ----- What no event takes back -----

  ghost predicate SameGrant(t: RefreshToken, later: RefreshToken) {
    && later == t.(used := later.used, revoked := later.revoked, rotatedTo := later.rotatedTo)
    && (t.used ==> later.used && later.rotatedTo == t.rotatedTo)
    && (t.revoked ==> later.revoked)
  }

  ghost predicate RefreshKept(before: RefreshTokens, after: RefreshTokens) {
    forall v :: v in before ==> v in after && SameGrant(before[v], after[v])
  }

  ghost predicate AccessKept(before: AccessTokens, after: AccessTokens) {
    forall v :: v in before ==>
      v in after && after[v] == before[v].(revoked := after[v].revoked) && (before[v].revoked ==> after[v].revoked)
  }

  ghost predicate CodesKept(before: map<string, Code>, after: map<string, Code>) {
    forall v :: v in before ==> v in after && after[v] == before[v].(used := after[v].used) && (before[v].used ==> after[v].used)
  }

  /** Records stay, marks are never taken back, and a spent device code never returns. */
  ghost predicate Kept(st: State, next: State) {
    && st.config == next.config && RefreshKept(st.refresh, next.refresh) && AccessKept(st.access, next.access)
    && CodesKept(st.codes, next.codes) && st.drawn <= next.drawn
    && forall v :: v in st.drawn && v !in st.devices ==> v !in next.devices
  }

  lemma MintKeeps(st: State, g: Grant, withRefresh: bool, family: string, v: Values, now: int)
    requires AllDrawn(st) && Fresh(st, v)
    ensures RefreshKept(st.refresh, Mint(st, g, withRefresh, family, v, now).refresh)
    ensures AccessKept(st.access, Mint(st, g, withRefresh, family, v, now).access)
  {
  }

  lemma RevokingKeeps(st: State, family: string, clientId: string, subject: string)
    ensures RefreshKept(st.refresh, RevokeFamily(st.refresh, family))
    ensures RefreshKept(st.refresh, RevokeRefreshOf(st.refresh, clientId, subject))
    ensures AccessKept(st.access, RevokeAccessOf(st.access, clientId, subject))
  {
  }

  lemma MarkingKeeps(refresh: RefreshTokens, value: string, newer: string)
    requires value in refresh && refresh[value].Live()
    ensures RefreshKept(refresh, refresh[value := refresh[value].(used := true, rotatedTo := Some(newer))])
  {
  }

  lemma RefreshKeptTransitive(a: RefreshTokens, b: RefreshTokens, c: RefreshTokens)
    requires RefreshKept(a, b) && RefreshKept(b, c)
    ensures RefreshKept(a, c)
  {
  }

  lemma TokensUntouched(st: State)
    ensures RefreshKept(st.refresh, st.refresh) && AccessKept(st.access, st.access)
    ensures forall v :: v in st.access ==> AccessKept(st.access, st.access[v := st.access[v].(revoked := true)])
  {
  }

  lemma TokensKeptStep(st: State, e: Event)
    requires AllDrawn(st) && Enabled(st, e)
    ensures RefreshKept(st.refresh, Apply(st, e).refresh) && AccessKept(st.access, Apply(st, e).access)
  {
    hide RefreshKept, AccessKept, Mint, CodeGrant, DeviceGrant, RefreshGrant, AllDrawn, RevokeFamily, RevokeRefreshOf, RevokeAccessOf, Fresh;
    TokensUntouched(st);
    DrawnParts(st);
    match e
    case RedeemCode(value, clientId, offered, v, at, now) =>
      var marked := st.(codes := st.codes[value := st.codes[value].(used := true)]);
      AllDrawnIf(marked);
      SameFresh(st, marked, v);
      MintKeeps(marked, CodeGrant(st, st.codes[value], offered), true, v.family, v, now);
    case RedeemDevice(value, clientId, offered, v, at, now) =>
      var removed := st.(devices := st.devices - {value});
      AllDrawnIf(removed);
      SameFresh(st, removed, v);
      MintKeeps(removed, DeviceGrant(st, st.devices[value], offered), true, v.family, v, now);
    case Rotate(value, clientId, scope, offered, v, at, now) =>
      var t := st.refresh[value];
      var marked := st.(refresh := st.refresh[value := t.(used := true, rotatedTo := Some(v.refresh))]);
      AllDrawnIf(marked);
      SameFresh(st, marked, v);
      MarkingKeeps(st.refresh, value, v.refresh);
      MintKeeps(marked, RefreshGrant(st, t, scope, offered), true, t.familyId, v, now);
      RefreshKeptTransitive(st.refresh, marked.refresh, Apply(st, e).refresh);
    case Renew(value, clientId, scope, offered, v, at, now) =>
      MintKeeps(st, RefreshGrant(st, st.refresh[value], scope, offered), false, st.refresh[value].familyId, v, now);
    case Issue(g, withRefresh, v, now) => MintKeeps(st, g, withRefresh, v.family, v, now);
    case ReplayCode(value) => RevokingKeeps(st, "", st.codes[value].clientId, st.codes[value].subject);
    case ReuseRefresh(value) => RevokingKeeps(st, st.refresh[value].familyId, st.refresh[value].clientId, st.refresh[value].subject);
    case RevokeRefresh(value, clientId) => RevokingKeeps(st, st.refresh[value].familyId, "", "");
    case _ =>
  }

  lemma SameFresh(st: State, other: State, v: Values)
    requires st.drawn == other.drawn
    ensures Fresh(st, v) <==> Fresh(other, v)
  {
  }

  lemma CodesKeptStep(st: State, e: Event)
    requires AllDrawn(st) && Enabled(st, e)
    ensures st.config == Apply(st, e).config && CodesKept(st.codes, Apply(st, e).codes)
  {
    hide RevokeFamily, RevokeRefreshOf, RevokeAccessOf, NewAccess, NewRefresh, CodeGrant, DeviceGrant, RefreshGrant, CanRefresh, Fresh;
  }

  lemma DrawnKeptStep(st: State, e: Event)
    requires AllDrawn(st) && Enabled(st, e)
    ensures var next := Apply(st, e);
      st.drawn <= next.drawn && forall v :: v in st.drawn && v !in st.devices ==> v !in next.devices
  {
    hide AllDrawn, RevokeFamily, RevokeRefreshOf, RevokeAccessOf, NewAccess, NewRefresh, CodeGrant, DeviceGrant, RefreshGrant, CanRefresh, Fresh;
  }

  lemma KeptTransitive(a: State, b: State, c: State)
    requires Kept(a, b) && Kept(b, c)
    ensures Kept(a, c)
  {
  }

  lemma KeptStep(st: State, e: Event)
    requires Inv(st) && Enabled(st, e)
    ensures Kept(st, Apply(st, e))
  {
    hide Apply, Enabled, Chains, AllDrawn, RefreshKept, AccessKept, CodesKept;
    TokensKeptStep(st, e);
    CodesKeptStep(st, e);
    DrawnKeptStep(st, e);
  }

  // ----- Runs -----

  lemma RunStep(states: seq<State>, events: seq<Event>, i: nat)
    requires IsRun(states, events)
    ensures |states| == |events| + 1 && states[0] == Initial(states[0].config)
    ensures i < |events| ==> Enabled(states[i], events[i]) && states[i + 1] == Apply(states[i], events[i])
  {
    hide Apply, Enabled;
    assert i < |events| ==> Step(states[i], events[i], states[i + 1]);
  }

  lemma {:induction false} InvAlways(states: seq<State>, events: seq<Event>, k: nat)
    requires IsRun(states, events) && k < |states|
    ensures Inv(states[k])
  {
    hide *;
    RunStep(states, events, 0);
    if k == 0 {
      InvInitially(states[0]);
    } else {
      InvAlways(states, events, k - 1);
      RunStep(states, events, k - 1);
      InvStep(states[k - 1], events[k - 1]);
    }
  }

  lemma InvInitially(st: State)
    requires st == Initial(st.config)
    ensures Inv(st)
  {
  }

  lemma {:induction false} KeptAlways(states: seq<State>, events: seq<Event>, i: nat, k: nat)
    requires IsRun(states, events) && i <= k < |states|
    ensures Kept(states[i], states[k])
    decreases k - i
  {
    hide *;
    if i == k {
      KeptReflexive(states[i]);
    } else {
      KeptAlways(states, events, i, k - 1);
      InvAlways(states, events, k - 1);
      RunStep(states, events, k - 1);
      KeptStep(states[k - 1], events[k - 1]);
      KeptTransitive(states[i], states[k - 1], states[k]);
    }
  }

  lemma KeptReflexive(st: State)
    ensures Kept(st, st)
  {
  }

  /** In every state of every run each refresh family has at most one live token. */
  lemma OneLiveAlways(states: seq<State>, events: seq<Event>, k: nat, v: string, w: string)
    requires IsRun(states, events) && k < |states|
    requires v in states[k].refresh && w in states[k].refresh && states[k].refresh[v].familyId == states[k].refresh[w].familyId
    requires states[k].refresh[v].Live() && states[k].refresh[w].Live()
    ensures v == w
  {
    InvAlways(states, events, k);
    OneLive(states[k], v, w);
  }

  // ----- A revoked family stays revoked -----

  ghost predicate FamilyRevoked(st: State, family: string) {
    family in st.drawn && forall v :: v in st.refresh && st.refresh[v].familyId == family ==> st.refresh[v].revoked
  }

  lemma FamilyRevokedStep(st: State, e: Event, family: string)
    requires FamilyRevoked(st, family) && Inv(st) && Enabled(st, e)
    ensures FamilyRevoked(Apply(st, e), family)
  {
    hide Chains, RevokeAccessOf, NewAccess, CodeGrant, DeviceGrant, RefreshGrant, BindingMet, ScopeWithin, Merge;
  }

  lemma {:induction false} FamilyRevokedAlways(states: seq<State>, events: seq<Event>, family: string, i: nat, k: nat)
    requires IsRun(states, events) && i <= k < |states| && FamilyRevoked(states[i], family)
    ensures FamilyRevoked(states[k], family)
    decreases k - i
  {
    hide *;
    if i < k {
      FamilyRevokedAlways(states, events, family, i, k - 1);
      InvAlways(states, events, k - 1);
      RunStep(states, events, k - 1);
      FamilyRevokedStep(states[k - 1], events[k - 1], family);
    }
  }

  /** Presenting a used or revoked token, or revoking one, ends its family for good. */
  ghost predicate EndsFamily(st: State, e: Event, family: string) {
    || (e.ReuseRefresh? && e.value in st.refresh && st.refresh[e.value].familyId == family)
    || (e.RevokeRefresh? && e.value in st.refresh && st.refresh[e.value].familyId == family)
  }

  lemma EndingRevokes(st: State, e: Event, family: string)
    requires Inv(st) && Enabled(st, e) && EndsFamily(st, e, family)
    ensures FamilyRevoked(Apply(st, e), family)
  {
    hide HasChain;
  }

  /** After the end of a family every token of it is revoked in every later state, and none is exchanged again. */
  lemma EndedFamilyStaysDead(states: seq<State>, events: seq<Event>, family: string, i: nat, k: nat)
    requires IsRun(states, events) && i < |events| && EndsFamily(states[i], events[i], family) && i < k < |states|
    ensures forall v :: v in states[k].refresh && states[k].refresh[v].familyId == family ==> states[k].refresh[v].revoked
    ensures k < |events| && (events[k].Rotate? || events[k].Renew?) ==>
      events[k].value in states[k].refresh && states[k].refresh[events[k].value].familyId != family
  {
    InvAlways(states, events, i);
    assert Step(states[i], events[i], states[i + 1]);
    EndingRevokes(states[i], events[i], family);
    FamilyRevokedAlways(states, events, family, i + 1, k);
    if k < |events| {
      assert Step(states[k], events[k], states[k + 1]);
    }
  }

  // ----- What a replay revokes stays revoked -----

  /** Access tokens of this client and subject. */
  predicate AccessOf(t: AccessToken, clientId: string, subject: string) {
    t.clientId == clientId && t.subject == Some(subject)
  }

  /** introspect's verdict. */
  predicate Active(st: State, value: string, at: int) {
    value in st.access && !st.access[value].revoked && at <= st.access[value].expiresAt
  }

  /** Everything the client held for the subject at a code replay is dead from then on. */
  lemma ReplayedCodeKills(states: seq<State>, events: seq<Event>, i: nat, k: nat, value: string)
    requires IsRun(states, events) && i < |events| && events[i].ReplayCode? && i < k < |states|
    ensures events[i].value in states[i].codes
    ensures var c := states[i].codes[events[i].value];
      && (value in states[i].access && AccessOf(states[i].access[value], c.clientId, c.subject) ==> forall at :: !Active(states[k], value, at))
      && (value in states[i].refresh && states[i].refresh[value].clientId == c.clientId && states[i].refresh[value].subject == c.subject
          ==> value in states[k].refresh && states[k].refresh[value].revoked)
  {
    assert Step(states[i], events[i], states[i + 1]);
    KeptAlways(states, events, i + 1, k);
    KeptParts(states[i + 1], states[k], value);
  }

  /** A detected reuse also ends every access token the client then held for the subject. */
  lemma ReuseKillsAccess(states: seq<State>, events: seq<Event>, i: nat, k: nat, value: string)
    requires IsRun(states, events) && i < |events| && events[i].ReuseRefresh? && i < k < |states|
    ensures events[i].value in states[i].refresh
    ensures var t := states[i].refresh[events[i].value];
      value in states[i].access && AccessOf(states[i].access[value], t.clientId, t.subject) ==> forall at :: !Active(states[k], value, at)
  {
    assert Step(states[i], events[i], states[i + 1]);
    KeptAlways(states, events, i + 1, k);
    KeptParts(states[i + 1], states[k], value);
  }

  lemma KeptParts(st: State, later: State, value: string)
    requires Kept(st, later)
    ensures value in st.access && st.access[value].revoked ==> value in later.access && later.access[value].revoked
    ensures value in st.refresh && st.refresh[value].revoked ==> value in later.refresh && later.refresh[value].revoked
    ensures value in st.codes && st.codes[value].used ==> value in later.codes && later.codes[value].used
    ensures value in st.drawn && value !in st.devices ==> value !in later.devices
  {
  }

  // ----- One-shot tickets -----

  predicate RedeemsOwnCode(st: State, e: Event)
    requires e.RedeemCode?
  {
    e.value in st.codes && st.codes[e.value].clientId == e.clientId && e.at <= st.codes[e.value].expiresAt && !st.codes[e.value].used
  }

  predicate RedeemsOwnDevice(st: State, e: Event)
    requires e.RedeemDevice?
  {
    && e.value in st.devices && st.devices[e.value].clientId == e.clientId && e.at <= st.devices[e.value].expiresAt
    && st.devices[e.value].approved && !st.devices[e.value].denied
  }

  /** A code is exchanged at most once in a run, by the client it was issued to and before it expires. */
  lemma CodeIsSingleUse(states: seq<State>, events: seq<Event>, i: nat, k: nat)
    requires IsRun(states, events) && i < k < |events|
    requires events[i].RedeemCode?
    ensures RedeemsOwnCode(states[i], events[i])
    ensures events[k].RedeemCode? ==> events[k].value != events[i].value
  {
    assert Step(states[i], events[i], states[i + 1]);
    assert Step(states[k], events[k], states[k + 1]);
    KeptAlways(states, events, i + 1, k);
    KeptParts(states[i + 1], states[k], events[i].value);
  }

  /** So is a device code, although its record is deleted: the random value never comes back. */
  lemma DeviceCodeIsSingleUse(states: seq<State>, events: seq<Event>, i: nat, k: nat)
    requires IsRun(states, events) && i < k < |events|
    requires events[i].RedeemDevice?
    ensures RedeemsOwnDevice(states[i], events[i])
    ensures events[k].RedeemDevice? ==> events[k].value != events[i].value
  {
    assert Step(states[i], events[i], states[i + 1]);
    assert Step(states[k], events[k], states[k + 1]);
    InvAlways(states, events, i);
    KeptAlways(states, events, i + 1, k);
    KeptParts(states[i + 1], states[k], events[i].value);
  }

  /** A rotated token is never exchanged again in the run. */
  lemma RotatedIsSpent(states: seq<State>, events: seq<Event>, i: nat, k: nat)
    requires IsRun(states, events) && i < k < |events|
    requires events[i].Rotate?
    ensures (events[k].Rotate? || events[k].Renew?) ==> events[k].value != events[i].value
  {
    assert Step(states[i], events[i], states[i + 1]);
    assert Step(states[k], events[k], states[k + 1]);
    InvAlways(states, events, i);
    KeptAlways(states, events, i + 1, k);
  }

  /**
   The access token of a refresh grants no more than the refresh token does: same owner and details, scope within
   its scope, every binding kept. Only its audience starts afresh, from the server's first known resource.
   */
  lemma AccessNarrows(st: State, e: Event)
    requires Enabled(st, e) && (e.Rotate? || e.Renew?)
    ensures e.v.access in Apply(st, e).access
    ensures var t, a := st.refresh[e.value], Apply(st, e).access[e.v.access];
      && a.clientId == t.clientId == e.clientId && a.subject == Some(t.subject) && a.details == t.details
      && ScopeWithin(a.scope, t.scope) && !a.revoked && a.expiresAt == e.now + st.config.accessLifetime
      && (t.cnf.jkt != "" ==> a.cnf.jkt == t.cnf.jkt == e.offered.jkt) && (t.cnf.x5t != "" ==> a.cnf.x5t == t.cnf.x5t == e.offered.x5t)
      && a.audience == DefaultAudience(st)
  {
  }

  // ----- The audience is not carried over -----

  /** The access token an exchange mints. */
  ghost predicate MintsFor(st: State, e: Event, next: State, audience: seq<string>)
    requires Mints(e)
  {
    e.v.access in next.access && next.access[e.v.access].audience == audience
  }

  lemma RedeemedAudience(st: State, e: Event)
    requires Enabled(st, e) && e.RedeemCode?
    ensures e.value in st.codes
    ensures MintsFor(st, e, Apply(st, e), if st.codes[e.value].resource != [] then st.codes[e.value].resource else DefaultAudience(st))
  {
  }

  /**
   A family that starts with a code: the access token of any later refresh in it has the audience of the first one
   exactly when the code named no resource or just the server's first known one.
   */
  lemma AudienceKeptIff(states: seq<State>, events: seq<Event>, i: nat, k: nat)
    requires IsRun(states, events) && i < k < |events|
    requires events[i].RedeemCode? && (events[k].Rotate? || events[k].Renew?)
    requires events[k].value in states[k].refresh && states[k].refresh[events[k].value].familyId == events[i].v.family
    ensures events[i].value in states[i].codes
    ensures events[i].v.access in states[i + 1].access && events[k].v.access in states[k + 1].access
    ensures var resource := states[i].codes[events[i].value].resource;
      states[k + 1].access[events[k].v.access].audience == states[i + 1].access[events[i].v.access].audience
      <==> resource == [] || resource == DefaultAudience(states[i])
  {
    hide Apply, Enabled, IsRun, Kept;
    RunStep(states, events, i);
    RunStep(states, events, k);
    RedeemedAudience(states[i], events[i]);
    AccessNarrows(states[k], events[k]);
    KeptAlways(states, events, i, k);
    SameConfig(states[i], states[k]);
  }

  lemma SameConfig(st: State, later: State)
    requires Kept(st, later)
    ensures DefaultAudience(st) == DefaultAudience(later)
  {
  }

  /** The steps of a run that loses the audience: a code for the second known resource, exchanged and refreshed. */
  function LosingEvents(): seq<Event> {
    var code := Code("c", "u", "https://c", ["read"], 60, "", false, ["two"], "", []);
    [IssueCode("code", code),
     RedeemCode("code", "c", Binding("", ""), Values("access 1", "refresh 1", "family"), 1, 1),
     Rotate("refresh 1", "c", ["read"], Binding("", ""), Values("access 2", "refresh 2", "spare"), 2, 2)]
  }

  function Losing(): State {
    Initial(Config(300, 1000, 60, 600, ["one", "two"]))
  }

  lemma LosingNamesDiffer()
    ensures var names := ["code", "access 1", "refresh 1", "family", "access 2", "refresh 2", "spare"];
      forall i, j :: 0 <= i < j < 7 ==> names[i] != names[j]
    ensures "one" != "two"
  {
    assert "one"[0] == 'o' && "two"[0] == 't';
    assert "code"[0] == 'c' && "spare"[0] == 's' && "family"[0] == 'f';
    assert "access 1"[0] == 'a' && "access 2"[0] == 'a' && "access 1"[7] == '1' && "access 2"[7] == '2';
    assert "refresh 1"[0] == 'r' && "refresh 2"[0] == 'r' && "refresh 1"[8] == '1' && "refresh 2"[8] == '2';
  }

  lemma AudienceIsLost()
    ensures var e := LosingEvents();
      && Enabled(Losing(), e[0]) && Enabled(Apply(Losing(), e[0]), e[1])
      && Enabled(Apply(Apply(Losing(), e[0]), e[1]), e[2])
      && var s2 := Apply(Apply(Losing(), e[0]), e[1]);
      var s3 := Apply(s2, e[2]);
      && "access 1" in s2.access && s2.access["access 1"].audience == ["two"]
      && "access 2" in s3.access && s3.access["access 2"].audience == ["one"]
  {
    var e := LosingEvents();
    LosingNamesDiffer();
    var names := ["code", "access 1", "refresh 1", "family", "access 2", "refresh 2", "spare"];
    assert names[0] != names[1] && names[0] != names[2] && names[0] != names[3] && names[0] != names[4];
    assert names[1] != names[2] && names[1] != names[3] && names[1] != names[4] && names[1] != names[5] && names[1] != names[6];
    assert names[2] != names[3] && names[2] != names[4] && names[2] != names[5] && names[2] != names[6];
    assert names[3] != names[4] && names[3] != names[5] && names[3] != names[6];
    assert names[4] != names[5] && names[4] != names[6] && names[5] != names[6] && names[0] != names[5] && names[0] != names[6];
    var s0 := Losing();
    assert Enabled(s0, e[0]);
    var s1 := Apply(s0, e[0]);
    assert Enabled(s1, e[1]);
    var s2 := Apply(s1, e[1]);
    assert Enabled(s2, e[2]);
  }
}
