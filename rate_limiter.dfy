/**
 * The in-memory login throttle (backend/middleware/rateLimiter.js): per
 * client address, the times of recent failed logins and the expiry of a
 * block. `Date.now()` is the parameter `now`, in milliseconds.
 */
module RateLimiter {
  import Seqs

  const WindowMs: int := 15 * 60 * 1000
  const MaxAttempts: nat := 5
  const BlockDurationMs: int := 15 * 60 * 1000

  /** `blockTime && now < blockTime`: a stored, non-zero expiry still in the future. */
  predicate BlockedAt(blocked: map<string, int>, ip: string, now: int) {
    ip in blocked && blocked[ip] != 0 && now < blocked[ip]
  }

  /** The blocks after `isBlocked(ip)` at `now`: a stored, non-zero expiry that has passed is deleted. */
  function AfterCheck(blocked: map<string, int>, ip: string, now: int): (r: map<string, int>)
    ensures forall other :: other != ip ==> (other in r <==> other in blocked)
    ensures forall other :: other != ip && other in r ==> r[other] == blocked[other]
    ensures BlockedAt(r, ip, now) == BlockedAt(blocked, ip, now)
  {
    if ip in blocked && blocked[ip] != 0 && !(now < blocked[ip]) then blocked - {ip} else blocked
  }

  /** The address's failures once a failure at `now` is recorded. */
  function Kept(attempts: map<string, seq<int>>, ip: string, now: int): seq<int> {
    AfterFailure(if ip in attempts then attempts[ip] else [], now)
  }

  function Recent(now: int): int -> bool {
    (t: int) => now - t < WindowMs
  }

  /** The address's failures after one more at `now`: those within the window, then `now`. */
  function AfterFailure(ts: seq<int>, now: int): (r: seq<int>)
    ensures |r| >= 1 && r[|r| - 1] == now
    ensures forall t :: t in r ==> now - t < WindowMs
    ensures forall t :: t in ts && now - t < WindowMs ==> t in r
  {
    Seqs.Filter(ts, Recent(now)) + [now]
  }

  /** When every kept failure is within the window of the new one, nothing is dropped. */
  lemma AfterFailureKeepsRecent(ts: seq<int>, now: int)
    requires forall i :: 0 <= i < |ts| ==> now - ts[i] < WindowMs
    ensures AfterFailure(ts, now) == ts + [now]
  {
    Seqs.FilterAll(ts, Recent(now));
  }

  /** The failure list built by failures at the times `times`, starting from none. */
  function Replay(times: seq<int>): seq<int>
    decreases |times|
  {
    if times == [] then [] else AfterFailure(Replay(times[..|times| - 1]), times[|times| - 1])
  }

  /** Non-decreasing times, all less than one window after the first. */
  predicate WithinOneWindow(times: seq<int>) {
    && (forall i, j :: 0 <= i < j < |times| ==> times[i] <= times[j])
    && (forall i :: 0 <= i < |times| ==> times[i] - times[0] < WindowMs)
  }

  /** Failures packed into one window are all remembered. */
  lemma {:induction false} ReplayWithinWindow(times: seq<int>)
    requires WithinOneWindow(times)
    ensures Replay(times) == times
    decreases |times|
  {
    if times != [] {
      var n := |times| - 1;
      var front := times[..n];
      if n > 0 {
        WindowPrefix(times, n);
      }
      ReplayWithinWindow(front);
      assert Replay(times) == AfterFailure(front, times[n]);
      LastFailureKeepsWindow(times);
    }
  }

  lemma WindowPrefix(times: seq<int>, n: nat)
    requires WithinOneWindow(times) && 0 < n <= |times|
    ensures WithinOneWindow(times[..n])
  {
    var front := times[..n];
    assert forall i :: 0 <= i < n ==> front[i] == times[i];
  }

  /** A failure at the end of one window keeps every earlier failure of it. */
  lemma LastFailureKeepsWindow(times: seq<int>)
    requires WithinOneWindow(times) && times != []
    ensures AfterFailure(times[..|times| - 1], times[|times| - 1]) == times
  {
    var n := |times| - 1;
    var front := times[..n];
    forall i | 0 <= i < n ensures times[n] - front[i] < WindowMs {
      assert front[i] == times[i];
      if i > 0 { assert times[0] <= times[i]; }
    }
    AfterFailureKeepsRecent(front, times[n]);
    assert times == front + [times[n]];
  }

  class LoginLimiter {
    var attempts: map<string, seq<int>>
    var blocked: map<string, int>

    constructor ()
      ensures attempts == map[] && blocked == map[]
    {
      attempts := map[];
      blocked := map[];
    }

    /**
     * `isBlocked`: true exactly while a stored expiry lies ahead; a stored
     * expiry that has passed is deleted; attempts are never touched.
     */
    method IsBlocked(ip: string, now: int) returns (b: bool)
      modifies this
      ensures b == BlockedAt(old(blocked), ip, now)
      ensures attempts == old(attempts)
      ensures blocked == AfterCheck(old(blocked), ip, now)
    {
      if ip in blocked && blocked[ip] != 0 && now < blocked[ip] {
        return true;
      }
      if ip in blocked && blocked[ip] != 0 {
        blocked := blocked - {ip};
      }
      b := false;
    }

    /**
     * `recordAttempt`: a success forgets the address's failures (and leaves
     * any block); a failure keeps the recent ones, adds `now`, and blocks the
     * address for 15 minutes when five or more are then on record.
     */
    method RecordAttempt(ip: string, success: bool, now: int) returns (nowBlocked: bool)
      modifies this
      ensures success ==> !nowBlocked && attempts == old(attempts) - {ip} && blocked == old(blocked)
      ensures !success ==>
        var kept := Kept(old(attempts), ip, now);
        && attempts == old(attempts)[ip := kept]
        && (nowBlocked <==> |kept| >= MaxAttempts)
        && blocked == if nowBlocked then old(blocked)[ip := now + BlockDurationMs] else old(blocked)
    {
      if success {
        attempts := attempts - {ip};
        return false;
      }
      var ipAttempts := if ip in attempts then attempts[ip] else [];
      ipAttempts := Seqs.Filter(ipAttempts, Recent(now)) + [now];
      attempts := attempts[ip := ipAttempts];
      if |ipAttempts| >= MaxAttempts {
        blocked := blocked[ip := now + BlockDurationMs];
        return true;
      }
      nowBlocked := false;
    }

    /** `loginRateLimiter`: the request goes on exactly when the address is not blocked (otherwise 429). */
    method Gate(ip: string, now: int) returns (allowed: bool)
      modifies this
      ensures allowed <==> !BlockedAt(old(blocked), ip, now)
      ensures attempts == old(attempts)
      ensures blocked == AfterCheck(old(blocked), ip, now)
    {
      var b := IsBlocked(ip, now);
      allowed := !b;
    }
  }

  /** Whatever the history, a success followed by a failure leaves exactly that one failure on record. */
  lemma SuccessResetsWindow(attempts: map<string, seq<int>>, ip: string, now: int)
    ensures Kept(attempts - {ip}, ip, now) == [now]
  {
    assert Seqs.Filter([], Recent(now)) == [];
  }

  /** Recording one address's attempt never touches another address's failures or block. */
  lemma OtherAddressesUntouched(attempts: map<string, seq<int>>, blocked: map<string, int>, ip: string, other: string, now: int)
    requires other != ip
    ensures other in attempts - {ip} <==> other in attempts
    ensures other in attempts[ip := Kept(attempts, ip, now)] <==> other in attempts
    ensures other in attempts ==> (attempts - {ip})[other] == attempts[other]
    ensures other in attempts ==> attempts[ip := Kept(attempts, ip, now)][other] == attempts[other]
    ensures other in blocked ==> blocked[ip := now + BlockDurationMs][other] == blocked[other]
    ensures BlockedAt(AfterCheck(blocked, ip, now), other, now) == BlockedAt(blocked, other, now)
  {
  }

  /** A block set at `now` holds for the next 15 minutes (unless the expiry happens to be 0, which reads as none). */
  lemma BlockLasts(blocked: map<string, int>, ip: string, now: int, t: int)
    requires now <= t < now + BlockDurationMs && now + BlockDurationMs != 0
    ensures BlockedAt(blocked[ip := now + BlockDurationMs], ip, t)
    ensures !BlockedAt(blocked[ip := now + BlockDurationMs], ip, now + BlockDurationMs)
  {
  }

  /** Five failures within one window bring the block on the fifth; four never do. */
  lemma FifthFailureBlocks(times: seq<int>)
    requires WithinOneWindow(times)
    ensures |Replay(times)| >= MaxAttempts <==> |times| >= MaxAttempts
  {
    ReplayWithinWindow(times);
  }

  /** However the failures are spread, at most the last window's worth is remembered. */
  lemma {:induction false} ReplayRecent(times: seq<int>)
    requires times != []
    ensures forall t :: t in Replay(times) ==> times[|times| - 1] - t < WindowMs
    ensures |Replay(times)| <= |times|
    decreases |times|
  {
    var n := |times| - 1;
    if n > 0 {
      ReplayRecent(times[..n]);
    }
  }
}
