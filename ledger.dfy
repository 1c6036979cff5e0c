/**
 * The refresh-token ledger: an in-memory map from refresh-token string to
 * the owning user and the entry's expiry. Lookups enforce expiry
 * themselves; the sweep only reclaims memory.
 *
 * Each operation is atomic (the source guards the map with one
 * reader/writer lock) and the clock is passed in as `now`.
 */
module Ledger {
  import opened Domain

  datatype RefreshTokenInfo = RefreshTokenInfo(userId: string, expiresAt: int)

  /** `ExpiresAt.Before(now)`: strictly earlier, so an entry is still live at its expiry instant. */
  predicate Expired(info: RefreshTokenInfo, now: int)
  {
    info.expiresAt < now
  }

  /** What a lookup of `token` answers at `now`. */
  function Lookup(tokens: map<string, RefreshTokenInfo>, token: string, now: int): Option<RefreshTokenInfo>
  {
    if token in tokens && !Expired(tokens[token], now) then Some(tokens[token]) else None
  }

  /** The tokens whose entries have expired at `now`. */
  function ExpiredTokens(tokens: map<string, RefreshTokenInfo>, now: int): set<string>
  {
    set t | t in tokens && Expired(tokens[t], now)
  }

  /** The ledger after a sweep at `now`: the entries still live at `now`. */
  function Sweep(tokens: map<string, RefreshTokenInfo>, now: int): map<string, RefreshTokenInfo>
  {
    map t | t in tokens && !Expired(tokens[t], now) :: tokens[t]
  }

  class RefreshTokenStore {
    var tokens: map<string, RefreshTokenInfo>

    /** `NewRefreshTokenStore`: an empty ledger. */
    constructor ()
      ensures tokens == map[]
    {
      tokens := map[];
    }

    /** `Save`: insert, overwriting any entry already held for `token`. */
    method Save(token: string, info: RefreshTokenInfo)
      modifies this
      ensures tokens == old(tokens)[token := info]
      ensures forall t :: t != token ==> (t in tokens <==> t in old(tokens))
      ensures forall t :: t != token && t in tokens ==> tokens[t] == old(tokens)[t]
    {
      tokens := tokens[token := info];
    }

    /**
     * `Get`: the entry for `token` when there is one that has not expired
     * at `now`; an entry whose expiry is exactly `now` is still returned.
     */
    method Get(token: string, now: int) returns (r: Option<RefreshTokenInfo>)
      ensures r.Some? <==> token in tokens && !(tokens[token].expiresAt < now)
      ensures r.Some? ==> r.value == tokens[token]
      ensures r == Lookup(tokens, token, now)
    {
      if token !in tokens {
        return None;
      }
      var info := tokens[token];
      if info.expiresAt < now {
        return None;
      }
      return Some(info);
    }

    /** `Delete`: remove `token`; nothing happens when it is absent. */
    method Delete(token: string)
      modifies this
      ensures tokens == old(tokens) - {token}
      ensures token !in tokens
      ensures forall t :: t != token ==> (t in tokens <==> t in old(tokens))
      ensures forall t :: t != token && t in tokens ==> tokens[t] == old(tokens)[t]
    {
      tokens := tokens - {token};
    }

    /**
     * `CleanupExpired`: one pass over the entries with a single `now`,
     * deleting each one that has expired.
     */
    method CleanupExpired(now: int)
      modifies this
      ensures tokens == Sweep(old(tokens), now)
    {
      ghost var before := tokens;
      var pending := tokens.Keys;
      while pending != {}
        invariant pending <= before.Keys
        invariant tokens == map t | t in before && (t in pending || !Expired(before[t], now)) :: before[t]
        decreases pending
      {
        var t :| t in pending;
        if tokens[t].expiresAt < now {
          tokens := tokens - {t};
        }
        pending := pending - {t};
      }
    }
  }

  /** The sweep is a set difference: it removes exactly the expired entries and leaves the rest untouched. */
  lemma SweepIsSetDifference(tokens: map<string, RefreshTokenInfo>, now: int)
    ensures Sweep(tokens, now) == tokens - ExpiredTokens(tokens, now)
    ensures Sweep(tokens, now).Keys == tokens.Keys - ExpiredTokens(tokens, now)
  {
  }

  /** A second sweep at the same instant changes nothing. */
  lemma SweepIdempotent(tokens: map<string, RefreshTokenInfo>, now: int)
    ensures Sweep(Sweep(tokens, now), now) == Sweep(tokens, now)
  {
  }

  /**
   * A sweep cannot be observed through lookups: at the sweep's instant or
   * any later one, every token looks the same as without the sweep.
   */
  lemma SweepUnobservable(tokens: map<string, RefreshTokenInfo>, now: int, later: int, t: string)
    requires now <= later
    ensures Lookup(Sweep(tokens, now), t, later) == Lookup(tokens, t, later)
  {
  }

  /** Deleting twice is deleting once, and a deleted token is never found. */
  lemma DeleteIdempotent(tokens: map<string, RefreshTokenInfo>, token: string, now: int)
    ensures (tokens - {token}) - {token} == tokens - {token}
    ensures Lookup(tokens - {token}, token, now) == None
  {
  }

  /** A saved entry is found until (and including) its expiry instant, and only then. */
  lemma SaveThenLookup(tokens: map<string, RefreshTokenInfo>, token: string, info: RefreshTokenInfo, now: int)
    ensures Lookup(tokens[token := info], token, now) == if now <= info.expiresAt then Some(info) else None
  {
  }
}
