/**
 * Cash-game check-in and check-out (backend/routes/players.js). The registry
 * holds the players, check-ins and points transactions collections that the
 * player, points and registration routes share; ids are indices.
 */
module Players {
  import opened Wrappers
  import opened Models
  import opened PlayerModel
  import CalculatePoints

  /** PointsTransaction.js: the `type` enum. */
  datatype TransactionType = TournamentPlay | TournamentPlace | CashHourly | CashDaily | Bonus | Adjustment

  datatype PointsTransaction = PointsTransaction(
    player: nat,
    playerName: Option<string>,
    points: int,
    kind: TransactionType,
    description: Option<string>,
    awardedBy: Option<StaffId>,
    createdAt: Millis)

  /** One visit to the cash games (PlayerCheckin.js); an open check-in has no `checkedOutAt`. */
  datatype Checkin = Checkin(
    player: nat,
    playerName: Option<string>,
    checkedInAt: Millis,
    checkedOutAt: Option<Millis>,
    pointsAwarded: Option<int>,
    checkedInBy: Option<StaffId>,
    checkedOutBy: Option<StaffId>)

  datatype CheckinOutcome = CheckedIn(checkinId: nat) | PlayerNotFound
  datatype CheckoutOutcome = CheckedOut(pointsEarned: int) | NoActiveCheckin

  predicate IsOpenFor(c: Checkin, player: nat) {
    c.player == player && c.checkedOutAt.None?
  }

  /**
   * `findOne({ player, checkedOutAt: null }).sort({ checkedInAt: -1 })`: the
   * open check-in of `player` that started last (the earliest stored on a tie).
   */
  function LatestOpenCheckin(cs: seq<Checkin>, player: nat): (r: Option<nat>)
    ensures r.Some? ==> r.value < |cs| && IsOpenFor(cs[r.value], player)
    ensures r.Some? ==> forall j :: 0 <= j < |cs| && IsOpenFor(cs[j], player) ==> cs[j].checkedInAt <= cs[r.value].checkedInAt
    ensures r.None? <==> forall j :: 0 <= j < |cs| ==> !IsOpenFor(cs[j], player)
    decreases |cs|
  {
    if cs == [] then None
    else
      var n := |cs| - 1;
      var r := LatestOpenCheckin(cs[..n], player);
      if !IsOpenFor(cs[n], player) then r
      else if r.Some? && cs[r.value].checkedInAt >= cs[n].checkedInAt then r
      else Some(n)
  }

  /** The transaction type of a paid cash session: daily from six hours on, hourly below. */
  function CashType(elapsedMs: int): TransactionType {
    if CalculatePoints.HoursOf(elapsedMs) >= 6.0 then CashDaily else CashHourly
  }

  /** A paid session is typed `cash_daily` exactly when it earned the daily amount. */
  lemma CashTypeMatchesPoints(elapsedMs: int)
    requires CalculatePoints.CalculateCashPoints(CalculatePoints.HoursOf(elapsedMs)) > 0
    ensures CashType(elapsedMs) == CashDaily <==>
      CalculatePoints.CalculateCashPoints(CalculatePoints.HoursOf(elapsedMs)) == CalculatePoints.CashDaily
    ensures CashType(elapsedMs) == CashDaily <==> elapsedMs >= 6 * CalculatePoints.MsPerHour
  {
    CalculatePoints.CashPointsOfElapsed(elapsedMs);
  }

  class PlayerRegistry {
    var players: seq<Player>
    var checkins: seq<Checkin>
    var transactions: seq<PointsTransaction>

    constructor (initial: seq<Player>)
      ensures players == initial && checkins == [] && transactions == []
    {
      players := initial;
      checkins := [];
      transactions := [];
    }

    /** POST /:id/checkin: 404 for an unknown player, otherwise one new open check-in, even beside an open one. */
    method CheckIn(id: nat, staff: StaffId, now: Millis) returns (out: CheckinOutcome)
      modifies this
      ensures players == old(players) && transactions == old(transactions)
      ensures out == PlayerNotFound <==> id >= |players|
      ensures out == PlayerNotFound ==> checkins == old(checkins)
      ensures out.CheckedIn? ==> out.checkinId == old(|checkins|)
      ensures out.CheckedIn? ==> checkins == old(checkins) + [Checkin(id, Some(Name(players[id])), now, None, None, Some(staff), None)]
    {
      if id >= |players| {
        return PlayerNotFound;
      }
      var c := Checkin(id, Some(Name(players[id])), now, None, None, Some(staff), None);
      out := CheckedIn(|checkins|);
      checkins := checkins + [c];
    }

    /**
     * POST /:id/checkout: 400 without an open check-in; otherwise the latest
     * open one is closed with the points `calculateCashPoints` gives for the
     * elapsed time, and only a positive amount is added to the player (when the
     * player exists) and recorded as one cash transaction.
     */
    method CheckOut(id: nat, staff: StaffId, now: Millis) returns (out: CheckoutOutcome)
      modifies this
      ensures out == NoActiveCheckin <==> LatestOpenCheckin(old(checkins), id).None?
      ensures out == NoActiveCheckin ==> unchanged(this)
      ensures out.CheckedOut? ==>
        var i := LatestOpenCheckin(old(checkins), id).value;
        var elapsed := now - old(checkins)[i].checkedInAt;
        var points := CalculatePoints.CalculateCashPoints(CalculatePoints.HoursOf(elapsed));
        && out.pointsEarned == points
        && checkins == old(checkins)[i := old(checkins)[i].(checkedOutAt := Some(now), pointsAwarded := Some(points),
                                                         checkedOutBy := Some(staff))]
        && (points == 0 ==> players == old(players) && transactions == old(transactions))
        && (points > 0 ==>
              && players == (if id < |old(players)| then old(players)[id := old(players)[id].(pointsJanuary := old(players)[id].pointsJanuary + points)]
                             else old(players))
              && transactions == old(transactions) + [PointsTransaction(id, None, points, CashType(elapsed), None, Some(staff), now)])
    {
      var found := LatestOpenCheckin(checkins, id);
      if found.None? {
        return NoActiveCheckin;
      }
      var i := found.value;
      var c := checkins[i];
      var elapsed := now - c.checkedInAt;
      var points := CalculatePoints.CalculateCashPoints(CalculatePoints.HoursOf(elapsed));
      checkins := checkins[i := c.(checkedOutAt := Some(now), pointsAwarded := Some(points), checkedOutBy := Some(staff))];
      if points > 0 {
        if id < |players| {
          players := players[id := players[id].(pointsJanuary := players[id].pointsJanuary + points)];
        }
        transactions := transactions + [PointsTransaction(id, None, points, CashType(elapsed), None, Some(staff), now)];
      }
      out := CheckedOut(points);
    }
  }
}
