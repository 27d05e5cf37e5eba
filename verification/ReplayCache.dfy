/** Caches that refuse a second use and forget old entries (authlab/oauth/dpop.py, authlab/kerberos/service.py). */
module ReplayCache {

  /** How far a stamp may be from the clock, and how long an accepted key is remembered. */
  datatype Limits = Limits(window: int, keep: int)

  /**
   One verification. `at` is the clock reading of the window check, `purgeAt` that of the purge; `before` and
   `after` say whether the checks before the window and after the lookup pass.
   */
  datatype Call<K> = Call(key: K, stamp: int, at: int, purgeAt: int, before: bool, after: bool)

  type Seen<K> = map<K, int>

  function Abs(x: int): int {
    if x < 0 then -x else x
  }

  /** Entries whose time has passed are dropped. */
  function Purged<K>(seen: Seen<K>, now: int): Seen<K> {
    map k | k in seen && seen[k] >= now :: seen[k]
  }

  predicate InWindow<K>(limits: Limits, c: Call<K>) {
    Abs(c.at - c.stamp) <= limits.window
  }

  /** The call gets as far as the cache. */
  predicate Consults<K>(limits: Limits, c: Call<K>) {
    c.before && InWindow(limits, c)
  }

  predicate Accepts<K>(limits: Limits, seen: Seen<K>, c: Call<K>) {
    Consults(limits, c) && c.key !in Purged(seen, c.purgeAt) && c.after
  }

  function After<K>(limits: Limits, seen: Seen<K>, c: Call<K>): Seen<K> {
    if !Consults(limits, c) then seen
    else if Accepts(limits, seen, c) then Purged(seen, c.purgeAt)[c.key := c.at + limits.keep]
    else Purged(seen, c.purgeAt)
  }

  /** states[i] is the cache before calls[i]; the clock never runs backwards. */
  ghost predicate IsRun<K(!new)>(limits: Limits, states: seq<Seen<K>>, calls: seq<Call<K>>) {
    && |states| == |calls| + 1 && states[0] == map[]
    && (forall i :: 0 <= i < |calls| ==> states[i + 1] == After(limits, states[i], calls[i]))
    && (forall i :: 0 <= i < |calls| ==> calls[i].at <= calls[i].purgeAt)
    && (forall i, j :: 0 <= i < j < |calls| ==> calls[i].purgeAt <= calls[j].at)
  }

  ghost predicate Accepted<K(!new)>(limits: Limits, states: seq<Seen<K>>, calls: seq<Call<K>>, i: nat)
    requires i < |calls| && |states| == |calls| + 1
  {
    Accepts(limits, states[i], calls[i])
  }

  ghost predicate NoneBetween<K(!new)>(limits: Limits, states: seq<Seen<K>>, calls: seq<Call<K>>, i: nat, k: nat)
    requires i < k <= |calls| && |states| == |calls| + 1
  {
    forall m :: i < m < k && calls[m].key == calls[i].key ==> !Accepted(limits, states, calls, m)
  }

  // Until it is accepted again, a key is in the cache with its first expiry, or a purge after that expiry removed it.
  lemma {:induction false} Remembered<K(!new)>(limits: Limits, states: seq<Seen<K>>, calls: seq<Call<K>>, i: nat, k: nat)
    requires IsRun(limits, states, calls) && i < k <= |calls|
    requires Accepted(limits, states, calls, i) && NoneBetween(limits, states, calls, i, k)
    ensures calls[i].key in states[k] ==> states[k][calls[i].key] == calls[i].at + limits.keep
    ensures calls[i].key !in states[k] ==> i + 1 < k && calls[i].at + limits.keep < calls[k - 1].purgeAt
    decreases k
  {
    if k == i + 1 {
    } else {
      Remembered(limits, states, calls, i, k - 1);
      var c := calls[k - 1];
      assert states[k - 1 + 1] == After(limits, states[k - 1], c);
      assert c.key == calls[i].key ==> !Accepted(limits, states, calls, k - 1);
      assert i + 1 < k - 1 ==> calls[k - 2].purgeAt <= c.at <= c.purgeAt;
    }
  }

  // What is in the cache was accepted.
  lemma {:induction false} SeenWasAccepted<K(!new)>(limits: Limits, states: seq<Seen<K>>, calls: seq<Call<K>>, k: nat, key: K)
    requires IsRun(limits, states, calls) && k <= |calls| && key in states[k]
    ensures exists i :: 0 <= i < k && calls[i].key == key && Accepted(limits, states, calls, i)
    decreases k
  {
    if k > 0 {
      assert states[k - 1 + 1] == After(limits, states[k - 1], calls[k - 1]);
      if key in states[k - 1] {
        SeenWasAccepted(limits, states, calls, k - 1, key);
      } else {
        assert calls[k - 1].key == key && Accepted(limits, states, calls, k - 1);
      }
    }
  }

  /** A key that was not accepted before is accepted exactly when its stamp is in the window and the other checks pass. */
  lemma FirstUseIff<K(!new)>(limits: Limits, states: seq<Seen<K>>, calls: seq<Call<K>>, k: nat)
    requires IsRun(limits, states, calls) && k < |calls|
    requires forall i :: 0 <= i < k && calls[i].key == calls[k].key ==> !Accepted(limits, states, calls, i)
    ensures Accepted(limits, states, calls, k) <==>
      calls[k].before && calls[k].after && calls[k].stamp - limits.window <= calls[k].at <= calls[k].stamp + limits.window
  {
    if calls[k].key in states[k] {
      SeenWasAccepted(limits, states, calls, k, calls[k].key);
    }
  }

  /** The exact condition under which a key is accepted again. */
  lemma AcceptedAgainIff<K(!new)>(limits: Limits, states: seq<Seen<K>>, calls: seq<Call<K>>, i: nat, k: nat)
    requires IsRun(limits, states, calls) && i < k < |calls| && calls[k].key == calls[i].key
    requires Accepted(limits, states, calls, i) && NoneBetween(limits, states, calls, i, k)
    requires calls[k].before && calls[k].after
    ensures Accepted(limits, states, calls, k) <==>
      InWindow(limits, calls[k]) && calls[i].at + limits.keep < calls[k].purgeAt
  {
    Remembered(limits, states, calls, i, k);
    assert i + 1 < k ==> calls[k - 1].purgeAt <= calls[k].at <= calls[k].purgeAt;
  }

  // ----- DPoP: remembered for two windows -----

  function DPoP(maxAge: int): Limits {
    Limits(maxAge, 2 * maxAge)
  }

  // While the proof is in its window nothing can have removed its entry.
  lemma {:induction false} NoneWhileInWindow<K(!new)>(maxAge: int, states: seq<Seen<K>>, calls: seq<Call<K>>, i: nat, k: nat)
    requires IsRun(DPoP(maxAge), states, calls) && i < k < |calls|
    requires Accepted(DPoP(maxAge), states, calls, i) && calls[k].at <= calls[i].stamp + maxAge
    ensures NoneBetween(DPoP(maxAge), states, calls, i, k)
    decreases k
  {
    var limits := DPoP(maxAge);
    if i + 1 < k {
      assert calls[k - 1].at <= calls[k - 1].purgeAt <= calls[k].at;
      NoneWhileInWindow(maxAge, states, calls, i, k - 1);
      if calls[k - 1].key == calls[i].key {
        Remembered(limits, states, calls, i, k - 1);
        assert i + 1 < k - 1 ==> calls[k - 2].purgeAt <= calls[k - 1].at;
      }
    }
  }

  /**
   A proof that was accepted is accepted again exactly when the clock reading of the window check is still in
   its window while that of the purge is already past the two windows of its entry.
   */
  lemma ProofReplayIff<K(!new)>(maxAge: int, states: seq<Seen<K>>, calls: seq<Call<K>>, i: nat, k: nat)
    requires IsRun(DPoP(maxAge), states, calls) && i < k < |calls|
    requires calls[k].key == calls[i].key && calls[k].stamp == calls[i].stamp
    requires Accepted(DPoP(maxAge), states, calls, i) && calls[k].before && calls[k].after
    ensures Accepted(DPoP(maxAge), states, calls, k) <==>
      InWindow(DPoP(maxAge), calls[k]) && calls[i].at + 2 * maxAge < calls[k].purgeAt
  {
    if InWindow(DPoP(maxAge), calls[k]) {
      NoneWhileInWindow(maxAge, states, calls, i, k);
      AcceptedAgainIff(DPoP(maxAge), states, calls, i, k);
    }
  }

  /** If each call sees one time only, dropping entries never lets a proof in twice. */
  lemma NoProofTwice<K(!new)>(maxAge: int, states: seq<Seen<K>>, calls: seq<Call<K>>, i: nat, k: nat)
    requires IsRun(DPoP(maxAge), states, calls) && i < k < |calls|
    requires calls[k].key == calls[i].key && calls[k].stamp == calls[i].stamp
    requires calls[k].purgeAt == calls[k].at && Accepted(DPoP(maxAge), states, calls, i)
    ensures !Accepted(DPoP(maxAge), states, calls, k)
  {
    if calls[k].before && calls[k].after {
      ProofReplayIff(maxAge, states, calls, i, k);
    }
  }

  ghost predicate AcceptedTwice(limits: Limits, states: seq<Seen<string>>, calls: seq<Call<string>>) {
    && IsRun(limits, states, calls) && |calls| == 2 && calls[0].key == calls[1].key && calls[0].stamp == calls[1].stamp
    && Accepted(limits, states, calls, 0) && Accepted(limits, states, calls, 1)
  }

  /** If the clock ticks between the two readings of one call, a proof stamped a full window ahead gets in twice. */
  lemma TickReopensProof(maxAge: nat)
    ensures exists states, calls :: AcceptedTwice(DPoP(maxAge), states, calls)
  {
    var limits := DPoP(maxAge);
    var first := Call("j", maxAge, 0, 0, true, true);
    var second := Call("j", maxAge, 2 * maxAge, 2 * maxAge + 1, true, true);
    var s0: Seen<string> := map[];
    var s1 := After(limits, s0, first);
    var s2 := After(limits, s1, second);
    assert AcceptedTwice(limits, [s0, s1, s2], [first, second]);
  }

  // ----- Kerberos: remembered for one skew -----

  function Kerberos(skew: int): Limits {
    Limits(skew, skew)
  }

  lemma ClockOrder<K(!new)>(limits: Limits, states: seq<Seen<K>>, calls: seq<Call<K>>, i: nat, k: nat)
    requires IsRun(limits, states, calls) && i <= k < |calls|
    ensures calls[i].at <= calls[k].at
  {
  }

  /** An authenticator stamped no later than its first acceptance is never accepted again. */
  lemma NoReplayOfPastStamp<K(!new)>(skew: int, states: seq<Seen<K>>, calls: seq<Call<K>>, i: nat, k: nat)
    requires IsRun(Kerberos(skew), states, calls) && (forall m :: 0 <= m < |calls| ==> calls[m].purgeAt == calls[m].at)
    requires i < k < |calls| && calls[k].key == calls[i].key && calls[k].stamp == calls[i].stamp
    requires Accepted(Kerberos(skew), states, calls, i) && calls[i].stamp <= calls[i].at
    ensures !Accepted(Kerberos(skew), states, calls, k)
  {
    var limits := Kerberos(skew);
    if Accepted(limits, states, calls, k) {
      var f := FirstAgain(limits, states, calls, i, k);
      ClockOrder(limits, states, calls, f, k);
      AcceptedAgainIff(limits, states, calls, i, f);
    }
  }

  // The first acceptance of the key after call i.
  lemma {:induction false} FirstAgain<K(!new)>(limits: Limits, states: seq<Seen<K>>, calls: seq<Call<K>>, i: nat, k: nat) returns (f: nat)
    requires |states| == |calls| + 1 && i < k < |calls| && calls[k].key == calls[i].key && Accepted(limits, states, calls, k)
    ensures i < f <= k && calls[f].key == calls[i].key && Accepted(limits, states, calls, f)
    ensures NoneBetween(limits, states, calls, i, f)
    decreases k
  {
    if m :| i < m < k && calls[m].key == calls[i].key && Accepted(limits, states, calls, m) {
      f := FirstAgain(limits, states, calls, i, m);
    } else {
      f := k;
    }
  }

  /** Otherwise it is accepted a second time exactly in the tail of its window that lies beyond one skew. */
  lemma AuthenticatorReplayIff<K(!new)>(skew: int, states: seq<Seen<K>>, calls: seq<Call<K>>, i: nat, k: nat)
    requires IsRun(Kerberos(skew), states, calls) && i < k < |calls| && calls[k].purgeAt == calls[k].at
    requires calls[k].key == calls[i].key && calls[k].stamp == calls[i].stamp
    requires Accepted(Kerberos(skew), states, calls, i) && NoneBetween(Kerberos(skew), states, calls, i, k)
    requires calls[k].before && calls[k].after
    ensures Accepted(Kerberos(skew), states, calls, k) <==> calls[i].at + skew < calls[k].at <= calls[i].stamp + skew
  {
    AcceptedAgainIff(Kerberos(skew), states, calls, i, k);
  }

  /** No authenticator is ever accepted three times. */
  lemma NeverThrice<K(!new)>(skew: int, states: seq<Seen<K>>, calls: seq<Call<K>>, i: nat, j: nat, k: nat)
    requires IsRun(Kerberos(skew), states, calls) && (forall m :: 0 <= m < |calls| ==> calls[m].purgeAt == calls[m].at)
    requires i < j < k < |calls| && calls[i].key == calls[j].key == calls[k].key && calls[i].stamp == calls[j].stamp == calls[k].stamp
    requires Accepted(Kerberos(skew), states, calls, i) && Accepted(Kerberos(skew), states, calls, j)
    ensures !Accepted(Kerberos(skew), states, calls, k)
  {
    var limits := Kerberos(skew);
    if Accepted(limits, states, calls, k) {
      var f := FirstAgain(limits, states, calls, i, j);
      AcceptedAgainIff(limits, states, calls, i, f);
      var g := FirstAgain(limits, states, calls, f, k);
      ClockOrder(limits, states, calls, g, k);
      AcceptedAgainIff(limits, states, calls, f, g);
    }
  }

  /** A stamp from the client's future lets one authenticator in twice. */
  lemma FutureStampReplays(skew: int)
    requires skew > 0
    ensures exists states, calls :: AcceptedTwice(Kerberos(skew), states, calls)
  {
    var limits := Kerberos(skew);
    var first := Call("a", skew, 0, 0, true, true);
    var second := Call("a", skew, skew + 1, skew + 1, true, true);
    var s0: Seen<string> := map[];
    var s1 := After(limits, s0, first);
    var s2 := After(limits, s1, second);
    assert AcceptedTwice(limits, [s0, s1, s2], [first, second]);
  }

  // ----- The purge loop and the two services -----

  /** _purge: the expired keys are collected and deleted one by one. */
  method Purge<K(==)>(seen: Seen<K>, now: int) returns (r: Seen<K>)
    ensures r == Purged(seen, now)
  {
    r := seen;
    var left := seen.Keys;
    while left != {}
      invariant left <= seen.Keys
      invariant forall k :: k in r <==> k in seen && (k in left || seen[k] >= now)
      invariant forall k :: k in r ==> r[k] == seen[k]
      decreases left
    {
      var k :| k in left;
      if seen[k] < now {
        r := r - {k};
      }
      left := left - {k};
    }
  }

  class DPoPVerifier {
    const maxAge: int
    var seen: Seen<string>
    ghost var states: seq<Seen<string>>
    ghost var calls: seq<Call<string>>

    ghost predicate Valid()
      reads this
    {
      IsRun(DPoP(maxAge), states, calls) && |states| == |calls| + 1 && states[|calls|] == seen
    }

    constructor (maxAge: int)
      ensures Valid() && this.maxAge == maxAge && calls == []
    {
      this.maxAge, seen := maxAge, map[];
      states, calls := [map[]], [];
    }

    /** The time does not go back behind the last reading. */
    ghost predicate NotBefore(at: int)
      reads this
    {
      forall i :: 0 <= i < |calls| ==> calls[i].purgeAt <= at
    }

    /** verify. The proof's signature, method and URL are checked first; nonce, token hash and key after the lookup. */
    method Verify(jti: string, iat: int, at: int, purgeAt: int, before: bool, after: bool) returns (accepted: bool)
      requires Valid() && NotBefore(at) && at <= purgeAt
      modifies this
      ensures Valid() && calls == old(calls) + [Call(jti, iat, at, purgeAt, before, after)]
      ensures accepted <==> Accepted(DPoP(maxAge), states, calls, |old(calls)|)
    {
      ghost var c := Call(jti, iat, at, purgeAt, before, after);
      accepted := false;
      if before && Abs(at - iat) <= maxAge {
        seen := Purge(seen, purgeAt);
        if jti !in seen && after {
          seen := seen[jti := at + maxAge * 2];
          accepted := true;
        }
      }
      assert seen == After(DPoP(maxAge), old(seen), c);
      states, calls := states + [seen], calls + [c];
    }
  }

  class KerberizedService {
    const skew: int
    var cache: Seen<(string, int, int)>
    ghost var states: seq<Seen<(string, int, int)>>
    ghost var calls: seq<Call<(string, int, int)>>

    ghost predicate Valid()
      reads this
    {
      && IsRun(Kerberos(skew), states, calls) && |states| == |calls| + 1 && states[|calls|] == cache
      && forall m :: 0 <= m < |calls| ==> calls[m].purgeAt == calls[m].at && calls[m].stamp == calls[m].key.1
    }

    constructor (skew: int)
      ensures Valid() && this.skew == skew && calls == []
    {
      this.skew, cache := skew, map[];
      states, calls := [map[]], [];
    }

    ghost predicate NotBefore(at: int)
      reads this
    {
      forall i :: 0 <= i < |calls| ==> calls[i].purgeAt <= at
    }

    /** ap_req. `ticketOk` covers the ticket, its times and the client name, which are checked before the stamp. */
    method ApReq(client: string, timestamp: int, sequence: int, now: int, ticketOk: bool) returns (accepted: bool)
      requires Valid() && NotBefore(now)
      modifies this
      ensures Valid() && calls == old(calls) + [Call((client, timestamp, sequence), timestamp, now, now, ticketOk, true)]
      ensures accepted <==> Accepted(Kerberos(skew), states, calls, |old(calls)|)
    {
      var key := (client, timestamp, sequence);
      ghost var c := Call(key, timestamp, now, now, ticketOk, true);
      accepted := false;
      if ticketOk && Abs(now - timestamp) <= skew {
        cache := Purge(cache, now);
        if key !in cache {
          cache := cache[key := now + skew];
          accepted := true;
        }
      }
      assert cache == After(Kerberos(skew), old(cache), c);
      states, calls := states + [cache], calls + [c];
    }
  }
}
