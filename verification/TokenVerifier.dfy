/**
 The cache of the realm's signing keys, `TokenVerifier`. Times are reals; a call reads the clock before it
 decides and again when it fetches. Signatures are an arbitrary check over keys and token.
 */
module TokenVerifier {
  import opened Common

  /** A JWKS: key id to key. */
  type KeySet = map<string, int>

  datatype Token = Token(kid: Option<string>, content: string)

  datatype Claims = Claims(issuer: string, audience: seq<string>, content: string)

  datatype Answer<T> = Ok(value: T) | Unauthorized | Unavailable

  datatype Config = Config(
    ttl: real,
    minRefreshInterval: real,
    issuer: Option<string>,
    audience: Option<string>)

  /** `lastAttempt` is `None` for minus infinity. */
  datatype State = State(keys: Option<KeySet>, fetchedAt: real, lastAttempt: Option<real>)

  const INITIAL: State := State(None, 0.0, None)

  /** One call of `_keys_for`: the clock before and in a possible fetch, and what the realm would answer it. */
  datatype Call = Call(kid: Option<string>, now: real, fetchNow: real, certs: Option<KeySet>)

  predicate IsStale(config: Config, s: State, now: real) {
    s.keys.None? || now - s.fetchedAt > config.ttl
  }

  predicate IsUnknown(config: Config, s: State, call: Call) {
    && call.kid.Some? && call.kid.value != ""
    && s.keys.Some? && call.kid.value !in s.keys.value
    && (s.lastAttempt.None? || call.now - s.lastAttempt.value >= config.minRefreshInterval)
  }

  predicate Fetches(config: Config, s: State, call: Call) {
    IsStale(config, s, call.now) || IsUnknown(config, s, call)
  }

  /** A fetch at `now`: success replaces the keys, a failure postpones the next attempt. */
  function AfterFetch(config: Config, s: State, now: real, certs: Option<KeySet>): State {
    if certs.Some? then State(certs, now, Some(now))
    else if s.keys.None? then s.(lastAttempt := Some(now))
    else State(s.keys, now - config.ttl + config.minRefreshInterval, Some(now))
  }

  function After(config: Config, s: State, call: Call): State {
    if Fetches(config, s, call) then AfterFetch(config, s, call.fetchNow, call.certs) else s
  }

  class TokenVerifier {
    const config: Config
    var keys: Option<KeySet>
    var fetchedAt: real
    var lastAttempt: Option<real>

    constructor (config: Config)
      ensures this.config == config && Abstract() == INITIAL
    {
      this.config := config;
      this.keys := None;
      this.fetchedAt := 0.0;
      this.lastAttempt := None;
    }

    ghost function Abstract(): State
      reads this
    {
      State(keys, fetchedAt, lastAttempt)
    }

    /** `_fetch_locked`; false when it raised because there is nothing to fall back on. */
    method FetchLocked(now: real, certs: Option<KeySet>) returns (ok: bool)
      modifies this
      ensures Abstract() == AfterFetch(config, old(Abstract()), now, certs)
      ensures ok <==> keys.Some?
    {
      lastAttempt := Some(now);
      if certs.Some? {
        keys := certs;
        fetchedAt := now;
        ok := true;
      } else if keys.None? {
        ok := false;
      } else {
        fetchedAt := now - config.ttl + config.minRefreshInterval;
        ok := true;
      }
    }

    /** `_keys_for`. */
    method KeysFor(call: Call) returns (answer: Answer<KeySet>)
      modifies this
      ensures Abstract() == After(config, old(Abstract()), call)
      ensures answer == if keys.Some? then Ok(keys.value) else Unavailable
    {
      var isStale := keys.None? || call.now - fetchedAt > config.ttl;
      var isUnknownKey := call.kid.Some? && call.kid.value != ""
                          && keys.Some? && call.kid.value !in keys.value
                          && (lastAttempt.None? || call.now - lastAttempt.value >= config.minRefreshInterval);
      if isStale || isUnknownKey {
        var ok := FetchLocked(call.fetchNow, call.certs);
        if !ok {
          return Unavailable;
        }
      }
      answer := Ok(keys.value);
    }

    /** `decode`: the header is read first, then the keys, then signature, issuer and audience. */
    method Decode(token: Token, readable: bool, now: real, fetchNow: real, certs: Option<KeySet>,
                  verify: (KeySet, Token) -> Option<Claims>) returns (answer: Answer<Claims>)
      modifies this
      ensures !readable ==> answer == Unauthorized && Abstract() == old(Abstract())
      ensures readable ==> Abstract() == After(config, old(Abstract()), Call(token.kid, now, fetchNow, certs))
      ensures readable ==> answer == if keys.Some? then Judge(config, keys.value, token, verify) else Unavailable
      ensures forall claims :: answer == Ok(claims) <==>
                               readable && keys.Some? && Accepted(config, keys.value, token, verify, claims)
    {
      if !readable {
        return Unauthorized;
      }
      var found := KeysFor(Call(token.kid, now, fetchNow, certs));
      if !found.Ok? {
        return Unavailable;
      }
      var verified := verify(found.value, token);
      if verified.None? {
        return Unauthorized;
      }
      var claims := verified.value;
      if config.issuer.Some? && config.issuer.value != "" && claims.issuer != config.issuer.value {
        return Unauthorized;
      }
      if config.audience.Some? && config.audience.value != "" && config.audience.value !in claims.audience {
        return Unauthorized;
      }
      answer := Ok(claims);
    }
  }

  /** The answer for a token under given keys. */
  function Judge(config: Config, keys: KeySet, token: Token, verify: (KeySet, Token) -> Option<Claims>)
    : Answer<Claims>
  {
    match verify(keys, token)
    case None => Unauthorized
    case Some(claims) =>
      if (config.issuer.Some? && config.issuer.value != "" ==> claims.issuer == config.issuer.value)
         && (config.audience.Some? && config.audience.value != "" ==> config.audience.value in claims.audience)
      then Ok(claims) else Unauthorized
  }

  /**
   The token verifies under these keys with these claims, which name the configured issuer, and the configured audience
   among theirs; an empty setting asks for nothing.
   */
  predicate Accepted(config: Config, keys: KeySet, token: Token, verify: (KeySet, Token) -> Option<Claims>,
                     claims: Claims)
  {
    && verify(keys, token) == Some(claims)
    && config.issuer in [None, Some(""), Some(claims.issuer)]
    && (config.audience in [None, Some("")] || exists name :: name in claims.audience && config.audience == Some(name))
  }

  // ---------------------------------------------------------------- runs

  /** The clock never goes back, within a call or from one call to the next. */
  ghost predicate Clocked(calls: seq<Call>) {
    && (forall i :: 0 <= i < |calls| ==> calls[i].now <= calls[i].fetchNow)
    && (forall i, j :: 0 <= i < j < |calls| ==> calls[i].fetchNow <= calls[j].now)
  }

  function Run(config: Config, calls: seq<Call>): State {
    if calls == [] then INITIAL
    else After(config, Run(config, calls[..|calls| - 1]), calls[|calls| - 1])
  }

  /** The n-th call of a run fetches. */
  predicate FetchesAt(config: Config, calls: seq<Call>, n: nat)
    requires n < |calls|
  {
    Fetches(config, Run(config, calls[..n]), calls[n])
  }

  lemma RunNext(config: Config, calls: seq<Call>, n: nat)
    requires n < |calls|
    ensures Run(config, calls[..n + 1]) == After(config, Run(config, calls[..n]), calls[n])
  {
    assert calls[..n + 1][..n] == calls[..n];
  }

  /** Once there are keys there always are. */
  lemma {:induction false} KeysStay(config: Config, calls: seq<Call>, i: nat, j: nat)
    requires i <= j <= |calls| && Run(config, calls[..i]).keys.Some?
    ensures Run(config, calls[..j]).keys.Some?
  {
    if i < j {
      KeysStay(config, calls, i, j - 1);
      RunNext(config, calls, j - 1);
    }
  }

  /** A successful fetch leaves keys, so from then on every call gets some. */
  lemma AvailableAfterFirstSuccess(config: Config, calls: seq<Call>, i: nat, j: nat)
    requires i < j <= |calls| && FetchesAt(config, calls, i) && calls[i].certs.Some?
    ensures Run(config, calls[..j]).keys.Some?
  {
    RunNext(config, calls, i);
    KeysStay(config, calls, i + 1, j);
  }

  /** The n-th call fetches, and the realm answers. */
  predicate FetchesNew(config: Config, calls: seq<Call>, n: nat)
    requires n < |calls|
  {
    FetchesAt(config, calls, n) && calls[n].certs.Some?
  }

  /** No fetch before the n-th call has succeeded. */
  ghost predicate NoKeysYet(config: Config, calls: seq<Call>, n: nat)
    requires n <= |calls|
  {
    forall k :: 0 <= k < n ==> !FetchesNew(config, calls, k)
  }

  /** While no fetch has succeeded there are no keys, and every call fetches. */
  lemma {:induction false} FetchesWhileNoKeys(config: Config, calls: seq<Call>, n: nat)
    requires n <= |calls|
    ensures Run(config, calls[..n]).keys == None <==> NoKeysYet(config, calls, n)
    ensures n < |calls| && NoKeysYet(config, calls, n) ==> FetchesAt(config, calls, n)
  {
    if n == 0 {
    } else {
      FetchesWhileNoKeys(config, calls, n - 1);
      RunNext(config, calls, n - 1);
      assert NoKeysYet(config, calls, n) <==> NoKeysYet(config, calls, n - 1) && !FetchesNew(config, calls, n - 1);
    }
  }

  /** The keys are those of the last fetch that succeeded. */
  lemma {:induction false} KeysAreLastFetched(config: Config, calls: seq<Call>, k: nat, n: nat)
    requires k < n <= |calls| && FetchesNew(config, calls, k)
    requires forall m :: k < m < n ==> !FetchesNew(config, calls, m)
    ensures Run(config, calls[..n]).keys == calls[k].certs
  {
    RunNext(config, calls, n - 1);
    if k < n - 1 {
      KeysAreLastFetched(config, calls, k, n - 1);
      assert !FetchesNew(config, calls, n - 1);
    }
  }

  /** The call brings a key id that is not among the keys. */
  predicate BringsNewKid(call: Call, keys: KeySet) {
    call.kid.Some? && call.kid.value != "" && call.kid.value !in keys
  }

  lemma NextFetch(config: Config, s: State, first: Call, next: Call)
    requires After(config, s, first) == AfterFetch(config, s, first.fetchNow, first.certs)
    ensures var after := After(config, s, first);
            var passed := next.now - first.fetchNow;
            Fetches(config, after, next) <==>
              || after.keys.None?
              || passed > (if first.certs.Some? then config.ttl else config.minRefreshInterval)
              || (passed >= config.minRefreshInterval && BringsNewKid(next, after.keys.value))
  {
  }

  /**
   When a call fetches, told by the last fetch before it: when no fetch has succeeded yet; when that one is more than
   `ttl` ago, or more than `min_refresh_interval` if it failed; or when the call brings a key id that is not
   among the keys and that fetch is at least `min_refresh_interval` ago. Never otherwise.
   */
  lemma FetchesWhen(config: Config, calls: seq<Call>, i: nat, j: nat)
    requires i < j < |calls| && FetchesAt(config, calls, i)
    requires forall k :: i < k < j ==> !FetchesAt(config, calls, k)
    ensures var keys := Run(config, calls[..j]).keys;
            var passed := calls[j].now - calls[i].fetchNow;
            && (keys.None? <==> NoKeysYet(config, calls, i + 1))
            && (FetchesAt(config, calls, j) <==>
                  || keys.None?
                  || passed > (if calls[i].certs.Some? then config.ttl else config.minRefreshInterval)
                  || (passed >= config.minRefreshInterval && BringsNewKid(calls[j], keys.value)))
  {
    RunNext(config, calls, i);
    NextFetch(config, Run(config, calls[..i]), calls[i], calls[j]);
    Unchanged(config, calls, i + 1, j);
    FetchesWhileNoKeys(config, calls, i + 1);
  }

  // ---------------------------------------------------------------- the rate of fetches

  /** What a state with keys remembers of its last fetch. */
  ghost predicate Remembers(config: Config, s: State, at: real) {
    && s.lastAttempt == Some(at)
    && (s.fetchedAt == at || s.fetchedAt == at - config.ttl + config.minRefreshInterval)
  }

  lemma FetchRemembered(config: Config, s: State, call: Call)
    requires Fetches(config, s, call) && After(config, s, call).keys.Some?
    ensures Remembers(config, After(config, s, call), call.fetchNow)
  {
  }

  lemma NextFetchIsLater(config: Config, s: State, at: real, call: Call)
    requires s.keys.Some? && Remembers(config, s, at) && call.now <= call.fetchNow
    requires Fetches(config, s, call)
    ensures call.fetchNow - at >= Min(config.ttl, config.minRefreshInterval)
  {
  }

  /** Between two fetches in a row the state does not change. */
  lemma {:induction false} Unchanged(config: Config, calls: seq<Call>, i: nat, j: nat)
    requires i <= j <= |calls|
    requires forall k :: i <= k < j ==> !FetchesAt(config, calls, k)
    ensures Run(config, calls[..j]) == Run(config, calls[..i])
  {
    if i < j {
      assert !FetchesAt(config, calls, j - 1);
      Unchanged(config, calls, i, j - 1);
      RunNext(config, calls, j - 1);
    }
  }

  lemma ConsecutiveFetches(config: Config, calls: seq<Call>, i: nat, j: nat)
    requires Clocked(calls) && i < j < |calls|
    requires FetchesAt(config, calls, i) && FetchesAt(config, calls, j)
    requires forall k :: i < k < j ==> !FetchesAt(config, calls, k)
    requires Run(config, calls[..i + 1]).keys.Some?
    ensures calls[j].fetchNow - calls[i].fetchNow >= Min(config.ttl, config.minRefreshInterval)
  {
    RunNext(config, calls, i);
    FetchRemembered(config, Run(config, calls[..i]), calls[i]);
    Unchanged(config, calls, i + 1, j);
    NextFetchIsLater(config, Run(config, calls[..j]), calls[i].fetchNow, calls[j]);
  }

  /** How many of the calls `i..j` fetch. */
  function CountFetches(config: Config, calls: seq<Call>, i: nat, j: nat): nat
    requires i <= j <= |calls|
  {
    if i == j then 0
    else CountFetches(config, calls, i, j - 1) + (if FetchesAt(config, calls, j - 1) then 1 else 0)
  }

  lemma {:induction false} LastFetchBefore(config: Config, calls: seq<Call>, i: nat, j: nat) returns (k: nat)
    requires i < j <= |calls| && FetchesAt(config, calls, i)
    ensures i <= k < j && FetchesAt(config, calls, k)
    ensures forall m :: k < m < j ==> !FetchesAt(config, calls, m)
    ensures CountFetches(config, calls, i, k + 1) == CountFetches(config, calls, i, j)
  {
    if i + 1 == j || FetchesAt(config, calls, j - 1) {
      k := j - 1;
    } else {
      k := LastFetchBefore(config, calls, i, j - 1);
    }
  }

  /**
   The refresh rate. From the first fetch that leaves keys on, n + 1 fetches through `_keys_for`, for any
   key ids and any outcomes, take at least n times the smaller of `ttl` and `min_refresh_interval`.
   */
  lemma {:induction false} RefreshRate(config: Config, calls: seq<Call>, i: nat, j: nat)
    requires Clocked(calls) && i <= j < |calls|
    requires FetchesAt(config, calls, i) && FetchesAt(config, calls, j)
    requires Run(config, calls[..i + 1]).keys.Some?
    ensures calls[j].fetchNow - calls[i].fetchNow >=
            Repeated(CountFetches(config, calls, i, j), Min(config.ttl, config.minRefreshInterval))
    decreases j
  {
    if i < j {
      var k := LastFetchBefore(config, calls, i, j);
      RefreshRate(config, calls, i, k);
      KeysStay(config, calls, i + 1, k + 1);
      ConsecutiveFetches(config, calls, k, j);
      assert CountFetches(config, calls, i, j) == CountFetches(config, calls, i, k) + 1;
    }
  }

  /** In a window of length W, with ttl >= min_refresh_interval > 0, there are at most W / min_refresh_interval + 1. */
  lemma FetchesInWindow(config: Config, calls: seq<Call>, i: nat, j: nat, window: real)
    requires config.ttl >= config.minRefreshInterval > 0.0
    requires Clocked(calls) && i <= j < |calls|
    requires FetchesAt(config, calls, i) && FetchesAt(config, calls, j)
    requires Run(config, calls[..i + 1]).keys.Some?
    requires calls[j].fetchNow - calls[i].fetchNow <= window
    ensures CountFetches(config, calls, i, j + 1) as real <= window / config.minRefreshInterval + 1.0
  {
    RefreshRate(config, calls, i, j);
    WindowBound(CountFetches(config, calls, i, j), config.minRefreshInterval, window);
    assert CountFetches(config, calls, i, j + 1) == CountFetches(config, calls, i, j) + 1;
  }

  lemma WindowBound(count: nat, interval: real, window: real)
    requires interval > 0.0 && Repeated(count, interval) <= window
    ensures (count + 1) as real <= window / interval + 1.0
  {
    RepeatedIsProduct(count, interval);
    DividedIsAtMost(count as real, interval, window);
  }

  lemma DividedIsAtMost(n: real, interval: real, window: real)
    requires interval > 0.0 && n * interval <= window
    ensures n <= window / interval
  {
    var q := window / interval;
    assert q * interval == window;
    assert n > q ==> n * interval > q * interval;
  }

  /**
   The bound is `min_refresh_interval` exactly when `ttl` is not smaller: if it is, two fetches that
   succeed can be closer.
   */
  lemma ShortTtlIsFaster(config: Config, keys: KeySet) returns (calls: seq<Call>)
    requires 0.0 <= config.ttl < config.minRefreshInterval
    ensures Clocked(calls) && |calls| == 2
    ensures FetchesAt(config, calls, 0) && FetchesAt(config, calls, 1)
    ensures Run(config, calls[..1]).keys.Some?
    ensures calls[1].fetchNow - calls[0].fetchNow < config.minRefreshInterval
  {
    var later := (config.ttl + config.minRefreshInterval) / 2.0;
    calls := [Call(None, 0.0, 0.0, Some(keys)), Call(None, later, later, Some(keys))];
    assert calls[..0] == [];
    RunNext(config, calls, 0);
  }

  // ---------------------------------------------------------------- staleness

  /** The realm: the keys it publishes at each moment. Every fetch succeeds. */
  ghost predicate AlwaysUp(calls: seq<Call>, realm: real -> KeySet) {
    forall i :: 0 <= i < |calls| ==> calls[i].certs == Some(realm(calls[i].fetchNow))
  }

  lemma {:induction false} HeldSince(config: Config, calls: seq<Call>, realm: real -> KeySet)
    requires Clocked(calls) && AlwaysUp(calls, realm)
    ensures var s := Run(config, calls);
            && (s.keys.Some? ==> s.keys.value == realm(s.fetchedAt) && s.lastAttempt == Some(s.fetchedAt))
            && (calls != [] ==> s.keys.Some? && s.fetchedAt <= calls[|calls| - 1].fetchNow)
  {
    if calls == [] {
    } else {
      HeldSince(config, calls[..|calls| - 1], realm);
    }
  }

  /**
   Bounded staleness. When the fetches succeed, the keys that a call returns are those that the realm
   published at some moment of the last `ttl` seconds before the call, or during it.
   */
  lemma {:induction false} BoundedStaleness(config: Config, calls: seq<Call>, realm: real -> KeySet)
    requires Clocked(calls) && AlwaysUp(calls, realm) && calls != [] && config.ttl >= 0.0
    ensures var last := calls[|calls| - 1];
            var s := Run(config, calls);
            && s.keys == Some(realm(s.fetchedAt))
            && last.now - config.ttl <= s.fetchedAt <= last.fetchNow
  {
    var n := |calls| - 1;
    HeldSince(config, calls, realm);
    HeldSince(config, calls[..n], realm);
    assert FetchesAt(config, calls, n) || !FetchesAt(config, calls, n);
  }

  /** The realm publishes these keys, and any fetch may fail. */
  ghost predicate MaybeUp(calls: seq<Call>, realm: real -> KeySet) {
    forall i :: 0 <= i < |calls| ==> calls[i].certs == None || calls[i].certs == Some(realm(calls[i].fetchNow))
  }

  /**
   Whatever fetches fail: a key id that the realm publishes at the time of the call is missing from what the
   call returns only within `min_refresh_interval` of the last attempt, which may be this call's own.
   */
  lemma {:induction false} MissedOnlyBriefly(config: Config, calls: seq<Call>, realm: real -> KeySet)
    requires Clocked(calls) && MaybeUp(calls, realm) && calls != [] && config.minRefreshInterval > 0.0
    requires var last := calls[|calls| - 1];
             last.kid.Some? && last.kid.value != "" && last.kid.value in realm(last.fetchNow)
    ensures var last, s := calls[|calls| - 1], Run(config, calls);
            s.keys.None? || last.kid.value !in s.keys.value ==>
              s.lastAttempt.Some? && last.now - s.lastAttempt.value < config.minRefreshInterval
  {
    var n := |calls| - 1;
    var before := Run(config, calls[..n]);
    if Fetches(config, before, calls[n]) {
      assert Run(config, calls).lastAttempt == Some(calls[n].fetchNow);
    } else {
      assert Run(config, calls) == before && before.keys.Some?;
    }
  }

  /**
   Rotation, end to end: when fetches succeed and the realm publishes a key id from `since` on, every call with that
   key id from `min_refresh_interval` after `since` on gets the key.
   */
  lemma PublishedKeyIsFound(config: Config, calls: seq<Call>, realm: real -> KeySet, kid: string, since: real)
    requires Clocked(calls) && AlwaysUp(calls, realm) && calls != [] && kid != ""
    requires forall t :: t >= since ==> kid in realm(t)
    requires var last := calls[|calls| - 1]; last.kid == Some(kid) && last.now >= since + config.minRefreshInterval
    requires config.minRefreshInterval >= 0.0
    ensures var s := Run(config, calls); s.keys.Some? && kid in s.keys.value
  {
    var n := |calls| - 1;
    HeldSince(config, calls, realm);
    HeldSince(config, calls[..n], realm);
    var before, last := Run(config, calls[..n]), calls[n];
    if Fetches(config, before, last) {
      assert last.fetchNow >= since;
    } else if before.fetchedAt >= since {
      assert kid in realm(before.fetchedAt);
    } else {
      assert last.now - before.fetchedAt >= config.minRefreshInterval;
    }
  }

  /**
   With a realm whose keys do not change, whatever fetches fail, the keys are the realm's once there are
   any: `decode` then answers what fetching every time would answer.
   */
  lemma {:induction false} UnchangingRealm(config: Config, calls: seq<Call>, keys: KeySet)
    requires forall i :: 0 <= i < |calls| ==> calls[i].certs == None || calls[i].certs == Some(keys)
    ensures Run(config, calls).keys == None || Run(config, calls).keys == Some(keys)
    ensures Run(config, calls).keys == None <==>
            forall i :: 0 <= i < |calls| ==> calls[i].certs == None
  {
    if calls == [] {
    } else {
      UnchangingRealm(config, calls[..|calls| - 1], keys);
      assert forall i :: 0 <= i < |calls| - 1 ==> calls[i] == calls[..|calls| - 1][i];
    }
  }

  /** With such a realm, a `decode` while the realm answers is the same as fetching the keys for it. */
  lemma DecodeAsIfFetched(config: Config, calls: seq<Call>, keys: KeySet, token: Token,
                          verify: (KeySet, Token) -> Option<Claims>)
    requires forall i :: 0 <= i < |calls| ==> calls[i].certs == None || calls[i].certs == Some(keys)
    requires calls != [] && calls[|calls| - 1].certs == Some(keys)
    ensures Run(config, calls).keys.Some?
    ensures Judge(config, Run(config, calls).keys.value, token, verify) == Judge(config, keys, token, verify)
  {
    UnchangingRealm(config, calls, keys);
  }
}
