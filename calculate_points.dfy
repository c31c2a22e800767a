/**
 * The points table, the cash-game points rule and the flush session clock
 * (backend/utils/calculatePoints.js). The hour of day and the current
 * ISO-8601 timestamp are parameters instead of clock reads.
 */
module CalculatePoints {
  import opened Wrappers
  import opened Models

  // POINTS_CONFIG
  const TournamentPlay: int := 5
  const TournamentBoth: int := 13
  const Tournament1st: int := 15
  const Tournament2nd: int := 10
  const Tournament3rd: int := 5
  const CashHourly: int := 10
  const CashDaily: int := 30

  const MsPerHour: int := 3600000

  /** Points for a cash session of `hours` hours (fractional). */
  function CalculateCashPoints(hours: real): (points: int)
    ensures points == 0 || points == CashHourly || points == CashDaily
    ensures points == CashDaily <==> hours >= 6.0
    ensures points > 0 <==> hours >= 1.0
  {
    if hours >= 6.0 then CashDaily
    else if hours >= 1.0 then CashHourly
    else 0
  }

  /** More time played never earns fewer points. */
  lemma CashPointsMonotone(h1: real, h2: real)
    requires h1 <= h2
    ensures CalculateCashPoints(h1) <= CalculateCashPoints(h2)
  {
  }

  /** The boundary values of the rule. */
  lemma CashPointsBoundaries()
    ensures CalculateCashPoints(5.99) == 10
    ensures CalculateCashPoints(6.0) == 30
    ensures CalculateCashPoints(0.99) == 0
    ensures CalculateCashPoints(1.0) == 10
  {
  }

  /** Elapsed milliseconds as fractional hours, exactly (`ms / (1000 * 60 * 60)`). */
  function HoursOf(elapsedMs: int): real {
    (elapsedMs as real) / (MsPerHour as real)
  }

  /** The thresholds on fractional hours are exact integer thresholds on milliseconds. */
  lemma CashPointsOfElapsed(elapsedMs: int)
    ensures CalculateCashPoints(HoursOf(elapsedMs)) ==
      if elapsedMs >= 6 * MsPerHour then CashDaily
      else if elapsedMs >= MsPerHour then CashHourly
      else 0
  {
    var h := HoursOf(elapsedMs);
    assert h * (MsPerHour as real) == elapsedMs as real;
  }

  /** A local hour of day, as `Date.prototype.getHours` returns it. */
  type Hour = h: int | 0 <= h < 24

  /** The flush session running at local `hour`, if any (`getCurrentFlushSession`). */
  function CurrentFlushSession(hour: Hour): (s: Option<SessionType>)
    ensures s == Some(FlushShine) <==> 14 <= hour < 20
    ensures s == Some(LastCall) <==> hour >= 20 || hour < 2
    ensures s == None <==> 2 <= hour < 14
  {
    if 14 <= hour < 20 then Some(FlushShine)
    else if hour >= 20 || hour < 2 then Some(LastCall)
    else None
  }

  /** The hours of the day at which session `t` is running. */
  function HoursOfSession(t: SessionType): set<int> {
    set h: int | 0 <= h < 24 && CurrentFlushSession(h) == Some(t)
  }

  /** The afternoon window is 14:00-19:59, the late-night one 20:00-01:59; each is six hours and they do not overlap. */
  lemma SessionWindows()
    ensures HoursOfSession(FlushShine) == {14, 15, 16, 17, 18, 19}
    ensures HoursOfSession(LastCall) == {20, 21, 22, 23, 0, 1}
    ensures |HoursOfSession(FlushShine)| == 6 && |HoursOfSession(LastCall)| == 6
    ensures HoursOfSession(FlushShine) !! HoursOfSession(LastCall)
  {
    var a := HoursOfSession(FlushShine);
    var b := HoursOfSession(LastCall);
    forall h | h in a ensures h in {14, 15, 16, 17, 18, 19} { }
    forall h | h in {14, 15, 16, 17, 18, 19} ensures h in a { assert CurrentFlushSession(h) == Some(FlushShine); }
    forall h | h in b ensures h in {20, 21, 22, 23, 0, 1} { }
    forall h | h in {20, 21, 22, 23, 0, 1} ensures h in b { assert CurrentFlushSession(h) == Some(LastCall); }
  }

  /**
   * `new Date().toISOString().split('T')[0]`: the text of the timestamp before
   * its first 'T' (all of it when there is none).
   */
  function SessionDate(iso: string): (date: string)
    ensures date <= iso
    ensures 'T' !in date
    ensures |date| < |iso| ==> iso[|date|] == 'T'
    decreases |iso|
  {
    if iso == [] || iso[0] == 'T' then []
    else [iso[0]] + SessionDate(iso[1..])
  }

  /**
   * The session date is taken from the UTC timestamp, not from the local hour
   * that selects the session: a late-night award after midnight is keyed by the
   * new UTC day, not by the evening the session started.
   */
  lemma AfterMidnightAwardUsesCurrentDay()
    ensures CurrentFlushSession(0) == Some(LastCall)
    ensures SessionDate("2025-01-02T07:30:00.000Z") == "2025-01-02"
  {
    assert "2025-01-02T07:30:00.000Z" == "2025-01-02" + "T07:30:00.000Z";
    SessionDatePrefix("2025-01-02", "T07:30:00.000Z");
  }

  /** A date followed by 'T' and anything yields that date. */
  lemma {:induction false} SessionDatePrefix(date: string, rest: string)
    requires 'T' !in date
    requires |rest| > 0 && rest[0] == 'T'
    ensures SessionDate(date + rest) == date
    decreases |date|
  {
    if date == [] {
      assert date + rest == rest;
    } else {
      assert (date + rest)[1..] == date[1..] + rest;
      SessionDatePrefix(date[1..], rest);
    }
  }
}
