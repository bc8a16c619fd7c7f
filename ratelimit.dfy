/**
 * The login rate limiter (server/auth.ts, `checkRateLimit`,
 * `recordFailedAttempt`, `clearAttempts`): a table of failed attempts per
 * client address. The check evicts an unlocked record whose last failure is
 * more than fifteen minutes old, and it locks an address for fifteen minutes
 * once the address has five failures, each within fifteen minutes of the one
 * before, with the last within fifteen minutes of the check. A locked record
 * is refused, however old its last failure. The clock reading `Date.now()` is
 * the parameter `now`.
 */
module RateLimit {
  import opened Wrappers

  const MaxAttempts: nat := 5
  const LockoutMs: nat := 15 * 60 * 1000
  const WindowMs: nat := 15 * 60 * 1000

  datatype Record = Record(count: nat, lastAttempt: nat, lockedUntil: Option<nat>)

  /** `{ allowed, retryAfter? }`, with `retryAfter` in seconds. */
  datatype Verdict = Verdict(allowed: bool, retryAfter: Option<int>)

  /** `Math.ceil(ms / 1000)`. */
  function CeilSeconds(ms: int): (s: int)
    ensures 1000 * (s - 1) < ms <= 1000 * s
  {
    -((-ms) / 1000)
  }

  /** Where a record stands when `checkRateLimit` looks at it. */
  datatype Status =
    | Unknown                    // no record for the address
    | Locked(remainingMs: int)   // `lockedUntil` lies in the future
    | Stale                      // not locked now, and the last failure lies outside the window
    | Exhausted                  // not locked now, the last failure lies inside the window, count >= 5
    | Tracking                   // not locked now, the last failure lies inside the window, count < 5

  function StatusOf(attempts: map<string, Record>, ip: string, now: nat): (st: Status)
    ensures st.Unknown? <==> ip !in attempts
    ensures st.Locked? <==> ip in attempts && attempts[ip].lockedUntil.Some? && attempts[ip].lockedUntil.value > now
    ensures st.Locked? ==> st.remainingMs == attempts[ip].lockedUntil.value - now > 0
    ensures st.Stale? || st.Exhausted? || st.Tracking? ==>
      ip in attempts && (attempts[ip].lockedUntil.None? || attempts[ip].lockedUntil.value <= now)
    ensures st.Stale? ==> now - attempts[ip].lastAttempt > WindowMs
    ensures st.Exhausted? ==> now - attempts[ip].lastAttempt <= WindowMs && attempts[ip].count >= MaxAttempts
    ensures st.Tracking? ==> now - attempts[ip].lastAttempt <= WindowMs && attempts[ip].count < MaxAttempts
  {
    if ip !in attempts then Unknown
    else
      var rec := attempts[ip];
      // `rec.lockedUntil && rec.lockedUntil > now`: with `now >= 0` a zero never passes the second test
      if rec.lockedUntil.Some? && rec.lockedUntil.value > now then Locked(rec.lockedUntil.value - now)
      else if now - rec.lastAttempt > WindowMs then Stale
      else if rec.count >= MaxAttempts then Exhausted
      else Tracking
  }

  /** The answer `checkRateLimit` gives in each state. */
  function CheckVerdict(attempts: map<string, Record>, ip: string, now: nat): (v: Verdict)
    ensures v.allowed <==> !StatusOf(attempts, ip, now).Locked? && !StatusOf(attempts, ip, now).Exhausted?
    ensures v.allowed <==> v.retryAfter.None?
    ensures !v.allowed ==> v.retryAfter.value >= 1
  {
    match StatusOf(attempts, ip, now)
    case Locked(ms) => Verdict(false, Some(CeilSeconds(ms)))
    case Exhausted => Verdict(false, Some(CeilSeconds(LockoutMs)))
    case _ => Verdict(true, None)
  }

  /** The table after `checkRateLimit`: a stale record is evicted, an exhausted one locked. */
  function CheckedTable(attempts: map<string, Record>, ip: string, now: nat): (after: map<string, Record>)
    ensures after.Keys <= attempts.Keys
    ensures forall other :: other in attempts && other != ip ==> other in after && after[other] == attempts[other]
    ensures ip in after ==> after[ip].count == attempts[ip].count && after[ip].lastAttempt == attempts[ip].lastAttempt
  {
    match StatusOf(attempts, ip, now)
    case Stale => attempts - {ip}
    case Exhausted => attempts[ip := attempts[ip].(lockedUntil := Some(now + LockoutMs))]
    case _ => attempts
  }

  /** The table after `recordFailedAttempt`. */
  function RecordedTable(attempts: map<string, Record>, ip: string, now: nat): (after: map<string, Record>)
    ensures after.Keys == attempts.Keys + {ip}
    ensures after[ip].lastAttempt == now && after[ip].count >= 1
    ensures forall other :: other in attempts && other != ip ==> after[other] == attempts[other]
  {
    var rec := if ip in attempts then attempts[ip] else Record(0, 0, None);
    attempts[ip := rec.(count := rec.count + 1, lastAttempt := now)]
  }

  /**
   * Every record stems from a failure, and a lock is only ever placed on a
   * record that reached the threshold (counts never go down).
   */
  ghost predicate WellFormed(attempts: map<string, Record>) {
    forall ip :: ip in attempts ==>
      attempts[ip].count >= 1 && (attempts[ip].lockedUntil.Some? ==> attempts[ip].count >= MaxAttempts)
  }

  class Limiter {
    /** `loginAttempts`. */
    var attempts: map<string, Record>

    ghost predicate Valid()
      reads this
    {
      WellFormed(attempts)
    }

    constructor ()
      ensures Valid() && attempts == map[]
    {
      attempts := map[];
    }

    method CheckRateLimit(ip: string, now: nat) returns (v: Verdict)
      requires Valid()
      modifies this
      ensures Valid()
      ensures v == CheckVerdict(old(attempts), ip, now)
      ensures attempts == CheckedTable(old(attempts), ip, now)
    {
      if ip !in attempts {
        return Verdict(true, None);
      }
      var rec := attempts[ip];
      if rec.lockedUntil.Some? && rec.lockedUntil.value > now {
        return Verdict(false, Some(CeilSeconds(rec.lockedUntil.value - now)));
      }
      if now - rec.lastAttempt > WindowMs {
        attempts := attempts - {ip};
        return Verdict(true, None);
      }
      if rec.count >= MaxAttempts {
        attempts := attempts[ip := rec.(lockedUntil := Some(now + LockoutMs))];
        return Verdict(false, Some(CeilSeconds(LockoutMs)));
      }
      return Verdict(true, None);
    }

    method RecordFailedAttempt(ip: string, now: nat)
      requires Valid()
      modifies this
      ensures Valid()
      ensures attempts == RecordedTable(old(attempts), ip, now)
    {
      var rec := if ip in attempts then attempts[ip] else Record(0, 0, None);
      rec := rec.(count := rec.count + 1);
      rec := rec.(lastAttempt := now);
      attempts := attempts[ip := rec];
    }

    method ClearAttempts(ip: string)
      requires Valid()
      modifies this
      ensures Valid()
      ensures attempts == old(attempts) - {ip}
    {
      attempts := attempts - {ip};
    }
  }

  // ---------- Properties of the three transitions ----------

  /** `recordFailedAttempt` starts a record at one or adds exactly one, stamps the time, keeps the lock and touches no other address. */
  lemma RecordEffect(attempts: map<string, Record>, ip: string, now: nat)
    ensures var after := RecordedTable(attempts, ip, now);
      && ip in after
      && after[ip].count == (if ip in attempts then attempts[ip].count + 1 else 1)
      && after[ip].lastAttempt == now
      && after[ip].lockedUntil == (if ip in attempts then attempts[ip].lockedUntil else None)
      && after.Keys == attempts.Keys + {ip}
      && forall other :: other in attempts && other != ip ==> after[other] == attempts[other]
  {
  }

  lemma RecordPreservesWellFormed(attempts: map<string, Record>, ip: string, now: nat)
    requires WellFormed(attempts)
    ensures WellFormed(RecordedTable(attempts, ip, now))
  {
  }

  lemma CheckPreservesWellFormed(attempts: map<string, Record>, ip: string, now: nat)
    requires WellFormed(attempts)
    ensures WellFormed(CheckedTable(attempts, ip, now))
  {
  }

  /** After `clearAttempts(ip)` the next check allows the address and changes nothing. */
  lemma CheckAfterClear(attempts: map<string, Record>, ip: string, now: nat)
    ensures CheckVerdict(attempts - {ip}, ip, now) == Verdict(true, None)
    ensures CheckedTable(attempts - {ip}, ip, now) == attempts - {ip}
  {
  }

  /** While locked, the check refuses with a positive wait in whole seconds and leaves the table alone. */
  lemma CheckWhileLocked(attempts: map<string, Record>, ip: string, now: nat)
    requires ip in attempts && attempts[ip].lockedUntil.Some? && attempts[ip].lockedUntil.value > now
    ensures var v := CheckVerdict(attempts, ip, now);
      && !v.allowed
      && v.retryAfter == Some(CeilSeconds(attempts[ip].lockedUntil.value - now))
      && v.retryAfter.value >= 1
      && 1000 * (v.retryAfter.value - 1) < attempts[ip].lockedUntil.value - now <= 1000 * v.retryAfter.value
    ensures CheckedTable(attempts, ip, now) == attempts
  {
  }

  /** An unlocked record whose last failure is more than fifteen minutes old is evicted and the address allowed. */
  lemma CheckEvictsStale(attempts: map<string, Record>, ip: string, now: nat)
    requires ip in attempts
    requires attempts[ip].lockedUntil.None? || attempts[ip].lockedUntil.value <= now
    requires now - attempts[ip].lastAttempt > WindowMs
    ensures CheckVerdict(attempts, ip, now) == Verdict(true, None)
    ensures CheckedTable(attempts, ip, now) == attempts - {ip}
  {
  }

  /**
   * An unlocked record with five or more failures whose last failure lies
   * inside the window is locked for fifteen minutes from now and refused
   * with `retryAfter` 900; nothing else in the table changes.
   */
  lemma CheckLocksExhausted(attempts: map<string, Record>, ip: string, now: nat)
    requires ip in attempts
    requires attempts[ip].lockedUntil.None? || attempts[ip].lockedUntil.value <= now
    requires now - attempts[ip].lastAttempt <= WindowMs
    requires attempts[ip].count >= MaxAttempts
    ensures CheckVerdict(attempts, ip, now) == Verdict(false, Some(900))
    ensures var after := CheckedTable(attempts, ip, now);
      && after.Keys == attempts.Keys
      && after[ip] == attempts[ip].(lockedUntil := Some(now + 900000))
      && forall other :: other in attempts && other != ip ==> after[other] == attempts[other]
  {
  }

  /** Fewer than five recent failures: allowed, nothing changes. */
  lemma CheckAllowsTracking(attempts: map<string, Record>, ip: string, now: nat)
    requires ip in attempts
    requires attempts[ip].lockedUntil.None? || attempts[ip].lockedUntil.value <= now
    requires now - attempts[ip].lastAttempt <= WindowMs
    requires attempts[ip].count < MaxAttempts
    ensures CheckVerdict(attempts, ip, now) == Verdict(true, None)
    ensures CheckedTable(attempts, ip, now) == attempts
  {
  }

  /** The check only ever changes the entry of the address it is asked about. */
  lemma CheckFramesOtherAddresses(attempts: map<string, Record>, ip: string, other: string, now: nat)
    requires other != ip
    ensures var after := CheckedTable(attempts, ip, now);
      (other in after <==> other in attempts) && (other in attempts ==> after[other] == attempts[other])
  {
  }

  // ---------- Consecutive failed logins ----------

  /**
   * One failed login as a caller is expected to run it: the check comes
   * first, and only an allowed attempt reaches the password check and,
   * failing there, is recorded. This calling order is not code of the
   * limiter itself.
   */
  function FailedLogin(attempts: map<string, Record>, ip: string, now: nat): (after: map<string, Record>)
    ensures CheckVerdict(attempts, ip, now).allowed ==> ip in after && after[ip].lastAttempt == now
    ensures !CheckVerdict(attempts, ip, now).allowed ==> after == CheckedTable(attempts, ip, now)
    ensures forall other :: other != ip ==> (other in after <==> other in attempts)
    ensures forall other :: other in attempts && other != ip ==> after[other] == attempts[other]
  {
    var checked := CheckedTable(attempts, ip, now);
    if CheckVerdict(attempts, ip, now).allowed then RecordedTable(checked, ip, now) else checked
  }

  /** Failed logins from one address at the given instants, in order. */
  function FailedLogins(attempts: map<string, Record>, ip: string, times: seq<nat>): (after: map<string, Record>)
    decreases |times|
    ensures forall other :: other != ip ==> (other in after <==> other in attempts)
    ensures forall other :: other in attempts && other != ip ==> after[other] == attempts[other]
  {
    if times == [] then attempts
    else FailedLogin(FailedLogins(attempts, ip, times[..|times| - 1]), ip, times[|times| - 1])
  }

  /** Each attempt comes at most one window after the one before it. */
  predicate InsideWindow(times: seq<nat>) {
    forall k :: 0 < k < |times| ==> times[k] - times[k - 1] <= WindowMs
  }

  /** Up to five failures, each inside the window of the last, accumulate one by one and lock nothing. */
  lemma {:induction false} FailuresAccumulate(attempts: map<string, Record>, ip: string, times: seq<nat>)
    requires ip !in attempts
    requires 0 < |times| <= MaxAttempts && InsideWindow(times)
    ensures var after := FailedLogins(attempts, ip, times);
      ip in after && after[ip] == Record(|times|, times[|times| - 1], None)
  {
    var n := |times|;
    var prefix := times[..n - 1];
    if n > 1 {
      assert InsideWindow(prefix) by {
        forall k | 0 < k < |prefix| ensures prefix[k] - prefix[k - 1] <= WindowMs {
          assert prefix[k] == times[k] && prefix[k - 1] == times[k - 1];
        }
      }
      FailuresAccumulate(attempts, ip, prefix);
      assert prefix[|prefix| - 1] == times[n - 2];
      var before := FailedLogins(attempts, ip, prefix);
      assert StatusOf(before, ip, times[n - 1]) == Tracking;
    } else {
      assert FailedLogins(attempts, ip, prefix) == attempts;
    }
  }

  /**
   * Five failures from a fresh address, each inside the window of the last,
   * lock it at the next check inside the window: that check refuses with
   * `retryAfter` 900 and every check in the following fifteen minutes refuses too.
   */
  lemma FiveFailuresLockOut(attempts: map<string, Record>, ip: string, times: seq<nat>, now: nat, later: nat)
    requires ip !in attempts
    requires |times| == MaxAttempts && InsideWindow(times)
    requires now - times[MaxAttempts - 1] <= WindowMs
    requires now <= later < now + LockoutMs
    ensures var after := FailedLogins(attempts, ip, times);
      && CheckVerdict(after, ip, now) == Verdict(false, Some(900))
      && !CheckVerdict(CheckedTable(after, ip, now), ip, later).allowed
  {
    FailuresAccumulate(attempts, ip, times);
  }

  /**
   * A failure more than one window after the previous one starts counting
   * afresh: the stale record is evicted and the new one has count 1.
   */
  lemma StaleFailureRestartsCount(attempts: map<string, Record>, ip: string, now: nat)
    requires ip in attempts
    requires attempts[ip].lockedUntil.None? || attempts[ip].lockedUntil.value <= now
    requires now - attempts[ip].lastAttempt > WindowMs
    ensures var after := FailedLogin(attempts, ip, now);
      ip in after && after[ip] == Record(1, now, None)
  {
  }
}
