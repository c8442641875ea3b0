/** The JWKS key store (`config/authorization/jwks.py`): the three critical sections of one call. */
module JwksStore {
  import opened Core

  /** Seconds on the monotonic clock; `None` stands for negative infinity. */
  type Seconds = real

  datatype Jwk = Jwk(kid: Option<string>, material: int)

  /** What one fetch answered: a parsed JWK Set (section 5 of RFC 7517), or nothing usable
    * (unreachable, not an object, too large, malformed). */
  datatype Fetch = Document(keys: seq<Jwk>) | Unusable

  datatype Outcome = Fetched | Failed | RateLimited

  datatype Refusal = NoKeyForKid | JwksFetchFailed | RefetchRateLimited

  /** Why a key that is missing after a refresh is missing, by what that refresh did. */
  function RefusalFor(outcome: Outcome): Refusal {
    match outcome
    case Fetched => NoKeyForKid
    case Failed => JwksFetchFailed
    case RateLimited => RefetchRateLimited
  }

  predicate Named(key: Jwk) {
    key.kid.Some? && key.kid.value != ""
  }

  /** The keys by `kid` (section 4.5 of RFC 7517); a later key replaces an earlier one of the same `kid`. */
  function IndexByKid(keys: seq<Jwk>): map<string, Jwk> {
    if keys == [] then map[]
    else
      var before, key := IndexByKid(keys[..|keys| - 1]), keys[|keys| - 1];
      if Named(key) then before[key.kid.value := key] else before
  }

  /** The index holds exactly the declared kids, each with the last key that declares it. */
  lemma {:induction false} TheIndexHoldsTheLastKeyOfEachKid(keys: seq<Jwk>, kid: string)
    ensures kid in IndexByKid(keys) <==> exists i :: 0 <= i < |keys| && Named(keys[i]) && keys[i].kid.value == kid
    ensures kid in IndexByKid(keys) ==>
      exists i :: 0 <= i < |keys| && keys[i] == IndexByKid(keys)[kid] && Named(keys[i]) && keys[i].kid.value == kid
        && forall j :: i < j < |keys| && Named(keys[j]) ==> keys[j].kid.value != kid
  {
    if keys != [] {
      var n := |keys| - 1;
      TheIndexHoldsTheLastKeyOfEachKid(keys[..n], kid);
      if Named(keys[n]) && keys[n].kid.value == kid {
        assert keys[n] == IndexByKid(keys)[kid];
      } else if kid in IndexByKid(keys[..n]) {
        var i :| 0 <= i < n && keys[..n][i] == IndexByKid(keys[..n])[kid] && Named(keys[..n][i])
          && keys[..n][i].kid.value == kid && forall j :: i < j < n && Named(keys[..n][j]) ==>
             keys[..n][j].kid.value != kid;
        assert keys[i] == IndexByKid(keys)[kid];
        assert forall j :: i < j < n ==> keys[j] == keys[..n][j];
      }
    }
  }

  /** A fetch the store accepts: a document that indexes to at least one key. */
  predicate Usable(fetch: Fetch) {
    fetch.Document? && IndexByKid(fetch.keys) != map[]
  }

  /** The value a `JWKSKeyStore` object holds. */
  datatype Cache = Cache(keys: map<string, Jwk>, fetchedAt: Option<Seconds>, lastAttempt: Option<Seconds>)

  const EMPTY := Cache(map[], None, None)

  predicate Expired(c: Cache, now: Seconds, ttl: Seconds) {
    c.fetchedAt.None? || now - c.fetchedAt.value >= ttl
  }

  predicate Limited(c: Cache, now: Seconds, window: Seconds) {
    c.lastAttempt.Some? && now - c.lastAttempt.value < window
  }

  /** The first critical section: it reads the index while the document is young enough. */
  function Unexpired(c: Cache, kid: string, now: Seconds, ttl: Seconds): Option<Jwk> {
    if Expired(c, now, ttl) then None else Get(c.keys, kid)
  }

  /** What a refresh at `now` reports; `fetch` is what the location would answer. */
  function Reported(c: Cache, now: Seconds, window: Seconds, fetch: Fetch): Outcome {
    if Limited(c, now, window) then RateLimited else if Usable(fetch) then Fetched else Failed
  }

  /** The second critical section; `done` is the clock after the fetch. */
  function Refreshed(c: Cache, now: Seconds, done: Seconds, window: Seconds, fetch: Fetch): Cache {
    match Reported(c, now, window, fetch)
    case RateLimited => c
    case Failed => c.(lastAttempt := Some(now))
    case Fetched => Cache(IndexByKid(fetch.keys), Some(done), Some(now))
  }

  class JWKSKeyStore {
    var keys: map<string, Jwk>
    var fetchedAt: Option<Seconds>
    var lastFetchAttempt: Option<Seconds>

    function Value(): Cache
      reads this
    {
      Cache(keys, fetchedAt, lastFetchAttempt)
    }

    /** Construction fetches nothing. */
    constructor ()
      ensures Value() == EMPTY
    {
      keys, fetchedAt, lastFetchAttempt := map[], None, None;
    }

    method ReadUnexpired(kid: string, now: Seconds, ttl: Seconds) returns (key: Option<Jwk>)
      ensures key == Unexpired(Value(), kid, now, ttl)
    {
      if fetchedAt == None || now - fetchedAt.value >= ttl {
        return None;
      }
      key := Get(keys, kid);
    }

    /** The second critical section: stamp the attempt, then replace all keys or none. */
    method Refresh(now: Seconds, done: Seconds, window: Seconds, fetch: Fetch) returns (outcome: Outcome)
      modifies this
      ensures outcome == Reported(old(Value()), now, window, fetch)
      ensures Value() == Refreshed(old(Value()), now, done, window, fetch)
    {
      if lastFetchAttempt != None && now - lastFetchAttempt.value < window {
        return RateLimited;
      }
      lastFetchAttempt := Some(now);
      if fetch == Unusable {
        return Failed;
      }
      var indexed := IndexByKid(fetch.keys);
      if indexed == map[] {
        return Failed;
      }
      keys := indexed;
      fetchedAt := Some(done);
      outcome := Fetched;
    }

    /** The one entry point, run without another thread in between: at most one fetch, and a
      * refusal only when the `kid` is not held after it. */
    method GetSigningKey(kid: string, seen: Seconds, now: Seconds, done: Seconds, ttl: Seconds, window: Seconds,
                         fetch: Fetch)
      returns (r: Result<Jwk, Refusal>)
      modifies this
      ensures var c := old(Value());
        if Unexpired(c, kid, seen, ttl).Some?
        then r == Success(c.keys[kid]) && Value() == c
        else
          && Value() == Refreshed(c, now, done, window, fetch)
          && r == if kid in Value().keys then Success(Value().keys[kid])
                  else Failure(RefusalFor(Reported(c, now, window, fetch)))
    {
      var cached := ReadUnexpired(kid, seen, ttl);
      if cached != None {
        return Success(cached.value);
      }
      var outcome := Refresh(now, done, window, fetch);
      var key := Get(keys, kid);
      if key != None {
        return Success(key.value);
      }
      r := Failure(RefusalFor(outcome));
    }
  }
}
