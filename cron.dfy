/**
 * The bodies of the scheduled jobs (backend/services/cronService.js): the
 * minutely expiry of called waitlist entries, the midnight jackpot increase,
 * and the 20:00 and 02:00 deletions of unfinished flush cards. The schedules
 * themselves are not modelled; each job runs with an explicit `now`.
 */
module CronService {
  import opened Wrappers
  import opened Models
  import opened FlushProgressModel
  import Waitlist
  import Flush
  import Seqs

  /** The flush_shine pool grows by 250 and the last_call pool by 50 each night, whatever `dailyIncrement` says. */
  const FlushShineIncrement: int := 250
  const LastCallIncrement: int := 50

  /** The sweep's filter `{ status: 'called', expiresAt: { $lt: now } }`. */
  predicate IsExpired(e: WaitlistEntry, now: Millis) {
    e.status == Called && e.expiresAt.Some? && e.expiresAt.value < now
  }

  /** The ledger after the sweep: each expired entry removed at `now`, every other entry as it was. */
  function Expire(es: seq<WaitlistEntry>, now: Millis): (r: seq<WaitlistEntry>)
    ensures |r| == |es|
  {
    seq(|es|, i requires 0 <= i < |es| => if IsExpired(es[i], now) then es[i].(status := Removed, removedAt := Some(now)) else es[i])
  }

  /**
   * After the sweep no called entry is past its expiry; the expired ones are
   * removed with `removedAt` = now; the rest are untouched; no position changes.
   */
  lemma ExpireSpec(es: seq<WaitlistEntry>, now: Millis)
    ensures forall i :: 0 <= i < |es| ==> !IsExpired(Expire(es, now)[i], now)
    ensures forall i :: 0 <= i < |es| && IsExpired(es[i], now) ==>
      Expire(es, now)[i].status == Removed && Expire(es, now)[i].removedAt == Some(now)
    ensures forall i :: 0 <= i < |es| && !IsExpired(es[i], now) ==> Expire(es, now)[i] == es[i]
    ensures forall i :: 0 <= i < |es| ==> Expire(es, now)[i].position == es[i].position
    ensures forall i :: 0 <= i < |es| && Waitlist.WellFormed(es[i]) ==> Waitlist.WellFormed(Expire(es, now)[i])
  {
  }

  /** Running the sweep twice at the same time changes nothing the second time. */
  lemma ExpireIdempotent(es: seq<WaitlistEntry>, now: Millis)
    ensures Expire(Expire(es, now), now) == Expire(es, now)
  {
    ExpireSpec(es, now);
  }

  /** The minutely sweep: the `for` loop over the expired entries. */
  method ExpireCalledEntries(ledger: Waitlist.WaitlistLedger, now: Millis) returns (expired: nat)
    requires ledger.Valid()
    modifies ledger
    ensures ledger.Valid()
    ensures ledger.entries == Expire(old(ledger.entries), now)
    ensures expired == Seqs.Count(old(ledger.entries), ExpiredNow(now))
  {
    var es := ledger.entries;
    var matches := Seqs.Filter(Seqs.Indices(|es|), ExpiredAt(es, now));
    Seqs.FilterIndices(|es|, ExpiredAt(es, now));
    var updated := es;
    var k := 0;
    while k < |matches|
      invariant 0 <= k <= |matches|
      invariant |updated| == |es|
      invariant forall i :: 0 <= i < |es| ==>
        updated[i] == if i in matches[..k] then Expire(es, now)[i] else es[i]
    {
      var i := matches[k];
      assert i in matches;
      updated := updated[i := updated[i].(status := Removed, removedAt := Some(now))];
      assert forall j :: j in matches[..k + 1] <==> j in matches[..k] || j == i by {
        assert matches[..k + 1] == matches[..k] + [i];
      }
      k := k + 1;
    }
    assert matches[..k] == matches;
    assert updated == Expire(es, now);
    ExpireSpec(es, now);
    ExpiredCount(es, now);
    ledger.entries := updated;
    expired := |matches|;
  }

  function ExpiredNow(now: Millis): WaitlistEntry -> bool {
    (e: WaitlistEntry) => IsExpired(e, now)
  }

  function ExpiredAt(es: seq<WaitlistEntry>, now: Millis): nat -> bool {
    (i: nat) => i < |es| && IsExpired(es[i], now)
  }

  /** The sweep visits as many entries as the query matches. */
  lemma {:induction false} ExpiredCount(es: seq<WaitlistEntry>, now: Millis)
    ensures |Seqs.Filter(Seqs.Indices(|es|), ExpiredAt(es, now))| == Seqs.Count(es, ExpiredNow(now))
  {
    var f := Seqs.Filter(Seqs.Indices(|es|), ExpiredAt(es, now));
    var g := Seqs.Filter(es, ExpiredNow(now));
    IndexFilterLength(es, |es|, now);
    assert es[..|es|] == es;
  }

  lemma {:induction false} IndexFilterLength(es: seq<WaitlistEntry>, n: nat, now: Millis)
    requires n <= |es|
    ensures |Seqs.Filter(Seqs.Indices(n), ExpiredAt(es, now))| == |Seqs.Filter(es[..n], ExpiredNow(now))|
    decreases n
  {
    if n > 0 {
      var m: nat := n - 1;
      IndexFilterLength(es, m, now);
      assert Seqs.Indices(n)[..m] == Seqs.Indices(m);
      assert es[..n][..m] == es[..m];
    }
  }

  /** The midnight job's `$inc`s. */
  function Incremented(jackpots: map<SessionType, FlushJackpot>): (r: map<SessionType, FlushJackpot>)
    ensures r.Keys == jackpots.Keys
  {
    map t | t in jackpots ::
      jackpots[t].(amount := jackpots[t].amount + (if t == FlushShine then FlushShineIncrement else LastCallIncrement))
  }

  /** Each stored pool rises by exactly its increment, so none ever decreases; nothing else changes. */
  lemma IncrementedSpec(jackpots: map<SessionType, FlushJackpot>)
    ensures FlushShine in jackpots ==> Incremented(jackpots)[FlushShine].amount == jackpots[FlushShine].amount + 250
    ensures LastCall in jackpots ==> Incremented(jackpots)[LastCall].amount == jackpots[LastCall].amount + 50
    ensures forall t :: t in jackpots ==> Incremented(jackpots)[t].amount > jackpots[t].amount
    ensures forall t :: t in jackpots ==> Incremented(jackpots)[t].(amount := jackpots[t].amount) == jackpots[t]
  {
  }

  method IncrementJackpots(tracker: Flush.FlushTracker)
    requires tracker.Valid()
    modifies tracker
    ensures tracker.Valid()
    ensures tracker.progress == old(tracker.progress)
    ensures tracker.jackpots == Incremented(old(tracker.jackpots))
  {
    var pools := tracker.jackpots;
    if FlushShine in pools {
      pools := pools[FlushShine := pools[FlushShine].(amount := pools[FlushShine].amount + FlushShineIncrement)];
    }
    if LastCall in pools {
      pools := pools[LastCall := pools[LastCall].(amount := pools[LastCall].amount + LastCallIncrement)];
    }
    assert pools == Incremented(old(tracker.jackpots));
    tracker.jackpots := pools;
  }

  /** A card the reset of session `t` keeps: one of the other session, or a completed one. */
  function SurvivesReset(t: SessionType): FlushProgress -> bool {
    (p: FlushProgress) => !(p.sessionType == t && p.completedAt.None?)
  }

  /** The reset of session `t` deletes exactly that session's unfinished cards. */
  lemma ResetSpec(progress: seq<FlushProgress>, t: SessionType)
    ensures forall p :: p in Seqs.Filter(progress, SurvivesReset(t)) <==>
      p in progress && (p.sessionType != t || p.completedAt.Some?)
    ensures forall p :: p in Seqs.Filter(progress, SurvivesReset(t)) && p.sessionType == t ==> p.completedAt.Some?
  {
  }

  /** `deleteMany({ sessionType: t, completedAt: null })`, the body of the 20:00 (flush_shine) and 02:00 (last_call) jobs. */
  method ResetUnfinished(tracker: Flush.FlushTracker, t: SessionType)
    requires tracker.Valid()
    modifies tracker
    ensures tracker.Valid()
    ensures tracker.progress == Seqs.Filter(old(tracker.progress), SurvivesReset(t))
    ensures tracker.jackpots == old(tracker.jackpots)
  {
    Seqs.FilterDistinctBy(tracker.progress, Flush.KeyOf, SurvivesReset(t));
    tracker.progress := Seqs.Filter(tracker.progress, SurvivesReset(t));
  }

  /** The 20:00 job. */
  method ResetFlushShine(tracker: Flush.FlushTracker)
    requires tracker.Valid()
    modifies tracker
    ensures tracker.Valid()
    ensures tracker.progress == Seqs.Filter(old(tracker.progress), SurvivesReset(FlushShine))
    ensures tracker.jackpots == old(tracker.jackpots)
  {
    ResetUnfinished(tracker, FlushShine);
  }

  /** The 02:00 job. */
  method ResetLastCall(tracker: Flush.FlushTracker)
    requires tracker.Valid()
    modifies tracker
    ensures tracker.Valid()
    ensures tracker.progress == Seqs.Filter(old(tracker.progress), SurvivesReset(LastCall))
    ensures tracker.jackpots == old(tracker.jackpots)
  {
    ResetUnfinished(tracker, LastCall);
  }
}
