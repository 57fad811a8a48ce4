/** The refresh-token record and its two computed properties. */
module RefreshTokens {
  import opened Wrappers

  /** A point in time, as a count of 100-nanosecond ticks (the unit of
      .NET `DateTime`). */
  type Time = int

  const TicksPerMinute: int := 600_000_000
  const TicksPerDay: int := 1440 * TicksPerMinute

  /** A refresh token expires 7 days after it is issued. */
  const RefreshTokenLifetime: int := 7 * TicksPerDay

  /** One row of the refresh-token table.  `revoked` is set when the token
      is rotated or logged out; `replacedByToken` is set only by rotation. */
  datatype RefreshToken = RefreshToken(
    token: string,
    expires: Time,
    created: Time,
    revoked: Option<Time>,
    replacedByToken: Option<string>,
    userId: string)
  {
    predicate IsExpired(now: Time)
    {
      now >= expires
    }

    predicate IsActive(now: Time)
    {
      revoked.None? && !IsExpired(now)
    }

    /** Rotated: revoked and linked to the token that replaced it. */
    predicate IsRotated()
    {
      revoked.Some? && replacedByToken.Some?
    }
  }

  /** A token is expired from the instant `Expires` on, and active one tick
      before if nobody revoked it. */
  lemma ExpiryBoundary(t: RefreshToken)
    ensures t.IsExpired(t.expires) && !t.IsActive(t.expires)
    ensures t.revoked.None? ==> t.IsActive(t.expires - 1)
  {
  }

  /** A revoked token is never active, whatever its expiry. */
  lemma RevokedIsNeverActive(t: RefreshToken, now: Time)
    requires t.revoked.Some?
    ensures !t.IsActive(now)
  {
  }

  /** Once expired, a token stays expired (and inactive) at every later time. */
  lemma ExpiryIsMonotone(t: RefreshToken, now: Time, later: Time)
    requires now <= later && t.IsExpired(now)
    ensures t.IsExpired(later) && !t.IsActive(later)
  {
  }

  /** A token inactive at `now` is inactive at every later time: the clock
      never undoes a revocation or an expiry. */
  lemma InactiveStaysInactive(t: RefreshToken, now: Time, later: Time)
    requires now <= later && !t.IsActive(now)
    ensures !t.IsActive(later)
  {
  }
}
