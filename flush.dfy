/**
 * The flush promotion (backend/routes/flush.js): awarding suit badges with
 * find-or-create of the session card and the jackpot reset on a full card,
 * the session leaderboard, and the reset of all cards.
 *
 * The local hour and the current ISO-8601 timestamp are parameters. The
 * players collection is read-only here and is passed in; a player's id is
 * its index in it. Jackpots are keyed by session type, which carries a
 * unique index.
 */
module Flush {
  import opened Wrappers
  import opened Models
  import opened FlushProgressModel
  import CalculatePoints
  import PlayerModel
  import Seqs
  import Text

  datatype AwardOutcome =
    | Awarded(suits: seq<char>, count: nat)
    | NoActiveSession
    | PlayerNotFound
    | InvalidRecord
    | UnknownSuit

  /** One row of the leaderboard response. */
  datatype LeaderRow = LeaderRow(id: PlayerId, name: Option<string>, cardNumber: Option<string>,
                                 suits: seq<char>, count: nat, score: string)

  /** The identity of a card: player, session and session date. */
  function KeyOf(p: FlushProgress): (PlayerId, SessionType, string) {
    (p.player, p.sessionType, p.sessionDate)
  }

  function HasKey(player: PlayerId, t: SessionType, date: string): FlushProgress -> bool {
    (p: FlushProgress) => p.player == player && p.sessionType == t && p.sessionDate == date
  }

  function InSession(t: SessionType, date: string): FlushProgress -> bool {
    (p: FlushProgress) => p.sessionType == t && p.sessionDate == date
  }

  /** `${n}/4` */
  function Score(n: nat): string {
    Text.NatToString(n) + "/4"
  }

  function ToRow(p: FlushProgress): (r: LeaderRow)
    ensures r.count == |r.suits| == BadgeCount(p) && r.suits == Suits(p)
  {
    LeaderRow(p.player, p.playerName, p.cardNumber, Suits(p), |Suits(p)|, Score(|Suits(p)|))
  }

  /** The sort key of `(a, b) => b.count - a.count`: larger counts first, ties in stored order. */
  function ByCountDescending(r: LeaderRow): int {
    -(r.count as int)
  }

  /**
   * The award applied to a card: the named badge is set and `updatedAt` is
   * now; a card that then holds all four badges gets `completedAt` = now,
   * which repeats on every later award to it.
   */
  function ApplyAward(p: FlushProgress, suit: Option<Suit>, now: Millis): (q: FlushProgress)
    ensures q.(completedAt := p.completedAt, updatedAt := p.updatedAt) == SetBadge(p, suit)
    ensures q.updatedAt == now
    ensures q.completedAt == if IsComplete(SetBadge(p, suit)) then Some(now) else p.completedAt
  {
    var q := SetBadge(p, suit).(updatedAt := now);
    if IsComplete(q) then q.(completedAt := Some(now)) else q
  }

  /** An award keeps "completed exactly when all four badges are held" and never loses a badge. */
  lemma ApplyAwardKeepsCompletion(p: FlushProgress, suit: Option<Suit>, now: Millis)
    requires p.completedAt.Some? <==> IsComplete(p)
    ensures ApplyAward(p, suit, now).completedAt.Some? <==> IsComplete(ApplyAward(p, suit, now))
    ensures IsComplete(p) ==> IsComplete(ApplyAward(p, suit, now))
    ensures forall c :: c in Suits(p) ==> c in Suits(ApplyAward(p, suit, now))
    ensures |Suits(ApplyAward(p, suit, now))| <= |Suits(p)| + 1
  {
    SetBadgeMonotone(p, suit);
  }

  /** Four awards of the four different suits complete any card. */
  lemma FourSuitsComplete(p: FlushProgress, now: Millis)
    ensures IsComplete(ApplyAward(ApplyAward(ApplyAward(ApplyAward(p, Some(Spade), now), Some(Heart), now),
                                              Some(Diamond), now), Some(Club), now))
    ensures ApplyAward(ApplyAward(ApplyAward(ApplyAward(p, Some(Spade), now), Some(Heart), now),
                                  Some(Diamond), now), Some(Club), now).completedAt == Some(now)
  {
  }

  /** The leaderboard of session `t` on `date`: its cards as rows, by non-increasing badge count. */
  function Leaderboard(progress: seq<FlushProgress>, t: Option<SessionType>, date: string): seq<LeaderRow> {
    if t.None? then []
    else
      var mine := Seqs.Filter(progress, InSession(t.value, date));
      Seqs.SortBy(seq(|mine|, i requires 0 <= i < |mine| => ToRow(mine[i])), ByCountDescending)
  }

  /**
   * The leaderboard has one row per card of the running session and date and
   * no other, ordered by non-increasing count; outside the session windows it
   * is empty (the query matches no card).
   */
  lemma LeaderboardSpec(progress: seq<FlushProgress>, t: Option<SessionType>, date: string)
    ensures t.None? ==> Leaderboard(progress, t, date) == []
    ensures t.Some? ==> |Leaderboard(progress, t, date)| == |Seqs.Filter(progress, InSession(t.value, date))|
    ensures t.Some? ==> forall p :: p in progress && p.sessionType == t.value && p.sessionDate == date ==>
      ToRow(p) in Leaderboard(progress, t, date)
    ensures forall r :: r in Leaderboard(progress, t, date) ==>
      exists p :: p in progress && InSession(t.value, date)(p) && r == ToRow(p)
    ensures forall i, j :: 0 <= i < j < |Leaderboard(progress, t, date)| ==>
      Leaderboard(progress, t, date)[i].count >= Leaderboard(progress, t, date)[j].count
  {
    if t.Some? {
      var mine := Seqs.Filter(progress, InSession(t.value, date));
      var rows := seq(|mine|, i requires 0 <= i < |mine| => ToRow(mine[i]));
      var board := Leaderboard(progress, t, date);
      forall x ensures x in board <==> x in rows {
        assert x in board <==> multiset(board)[x] > 0;
        assert x in rows <==> multiset(rows)[x] > 0;
      }
      forall p | p in progress && p.sessionType == t.value && p.sessionDate == date ensures ToRow(p) in board {
        assert p in mine;
        var i :| 0 <= i < |mine| && mine[i] == p;
        assert rows[i] == ToRow(p);
      }
      forall r | r in board ensures exists p :: p in progress && InSession(t.value, date)(p) && r == ToRow(p) {
        var i :| 0 <= i < |rows| && rows[i] == r;
        assert mine[i] in mine;
      }
      forall i, j | 0 <= i < j < |board| ensures board[i].count >= board[j].count {
        assert ByCountDescending(board[i]) <= ByCountDescending(board[j]);
      }
    }
  }

  /** Replacing a card by an awarded version of itself keeps the cards' invariant. */
  lemma ReplaceCardKeepsValid(cards: seq<FlushProgress>, index: nat, q: FlushProgress)
    requires index < |cards| && KeyOf(q) == KeyOf(cards[index])
    requires Seqs.DistinctBy(cards, KeyOf)
    requires forall p :: p in cards ==> (p.completedAt.Some? <==> IsComplete(p))
    requires q.completedAt.Some? <==> IsComplete(q)
    ensures Seqs.DistinctBy(cards[index := q], KeyOf)
    ensures forall p :: p in cards[index := q] ==> (p.completedAt.Some? <==> IsComplete(p))
  {
    var r := cards[index := q];
    assert forall j :: 0 <= j < |r| ==> KeyOf(r[j]) == KeyOf(cards[j]);
    forall p | p in r ensures p.completedAt.Some? <==> IsComplete(p) {
      var j :| 0 <= j < |r| && r[j] == p;
      if j != index { assert cards[j] in cards; }
    }
  }

  /**
   * The card for this player, session and date would have to be created, and
   * the schema refuses it because the session date is empty.
   */
  predicate NewCardRejected(progress: seq<FlushProgress>, playerId: PlayerId, hour: CalculatePoints.Hour, isoNow: string) {
    var t := CalculatePoints.CurrentFlushSession(hour);
    && t.Some?
    && Seqs.FindFirst(progress, HasKey(playerId, t.value, CalculatePoints.SessionDate(isoNow))).None?
    && CalculatePoints.SessionDate(isoNow) == ""
  }

  class FlushTracker {
    var progress: seq<FlushProgress>
    var jackpots: map<SessionType, FlushJackpot>

    /**
     * One card per (player, session, date); a card carries a completion time
     * exactly when it holds all four badges; each jackpot sits under its own
     * session type.
     */
    ghost predicate Valid()
      reads this
    {
      && Seqs.DistinctBy(progress, KeyOf)
      && (forall p :: p in progress ==> (p.completedAt.Some? <==> IsComplete(p)))
      && (forall t :: t in jackpots ==> jackpots[t].sessionType == t)
    }

    constructor (initialJackpots: map<SessionType, FlushJackpot>)
      requires forall t :: t in initialJackpots ==> initialJackpots[t].sessionType == t
      ensures Valid() && progress == [] && jackpots == initialJackpots
    {
      progress := [];
      jackpots := initialJackpots;
    }

    /**
     * POST /:playerId/suit. Outside a session window: 400 before anything
     * else. Unknown player: 404. Otherwise the player's card for this session
     * and date is found or created, the badge is awarded, and when the card is
     * then full the session's jackpot (if stored) drops to its base amount with
     * this player as last winner. A suit name that is not one of the four
     * sets no badge, but the card is still written; the activity entry
     * `flush_<name>` that follows is then outside the log's enumeration, so
     * the request fails (500) after those writes.
     */
    method AwardSuit(playerId: PlayerId, suitName: string, hour: CalculatePoints.Hour, isoNow: string, now: Millis,
                     players: seq<PlayerModel.Player>)
      returns (out: AwardOutcome)
      requires Valid()
      modifies this
      ensures Valid()
      ensures out == NoActiveSession <==> CalculatePoints.CurrentFlushSession(hour).None?
      ensures out == PlayerNotFound <==> CalculatePoints.CurrentFlushSession(hour).Some? && playerId >= |players|
      ensures out == InvalidRecord <==>
        CalculatePoints.CurrentFlushSession(hour).Some? && playerId < |players| && NewCardRejected(old(progress), playerId, hour, isoNow)
      ensures out == UnknownSuit <==>
        && CalculatePoints.CurrentFlushSession(hour).Some? && playerId < |players|
        && !NewCardRejected(old(progress), playerId, hour, isoNow) && ParseSuit(suitName).None?
      ensures out.Awarded? <==>
        && CalculatePoints.CurrentFlushSession(hour).Some? && playerId < |players|
        && !NewCardRejected(old(progress), playerId, hour, isoNow) && ParseSuit(suitName).Some?
      ensures !(out.Awarded? || out == UnknownSuit) ==> progress == old(progress) && jackpots == old(jackpots)
      ensures out.Awarded? || out == UnknownSuit ==>
        var t, date := CalculatePoints.CurrentFlushSession(hour).value, CalculatePoints.SessionDate(isoNow);
        var i := Seqs.FindFirst(old(progress), HasKey(playerId, t, date));
        var card := if i.Some? then old(progress)[i.value]
                    else NewProgress(playerId, Some(PlayerModel.Name(players[playerId])),
                                     Some(players[playerId].cardNumber), t, date, now);
        var q := ApplyAward(card, ParseSuit(suitName), now);
        && (if i.Some? then progress == old(progress)[i.value := q] else progress == old(progress) + [q])
        && (jackpots == if IsComplete(q) && t in old(jackpots)
              then old(jackpots)[t := old(jackpots)[t].(amount := old(jackpots)[t].baseAmount,
                                                       lastWonDate := Some(now), lastWinner := Some(playerId))]
              else old(jackpots))
        && (out.Awarded? ==> out.suits == Suits(q) && out.count == |Suits(q)| <= 4)
    {
      var session := CalculatePoints.CurrentFlushSession(hour);
      var date := CalculatePoints.SessionDate(isoNow);
      if session.None? {
        return NoActiveSession;
      }
      var t := session.value;
      if playerId >= |players| {
        return PlayerNotFound;
      }
      var player := players[playerId];
      var cards := progress;
      var found := Seqs.FindFirst(cards, HasKey(playerId, t, date));
      var card, index;
      if found.Some? {
        index := found.value;
        card := cards[index];
        assert card in cards;
      } else {
        if date == "" {
          // The schema requires a non-empty session date.
          return InvalidRecord;
        }
        card := NewProgress(playerId, Some(PlayerModel.Name(player)), Some(player.cardNumber), t, date, now);
        forall j | 0 <= j < |cards| ensures KeyOf(cards[j]) != KeyOf(card) {
          assert !HasKey(playerId, t, date)(cards[j]);
        }
        Seqs.AppendDistinctBy(cards, KeyOf, card);
        index := |cards|;
        cards := cards + [card];
      }
      ApplyAwardKeepsCompletion(card, ParseSuit(suitName), now);
      var q := ApplyAward(card, ParseSuit(suitName), now);
      ReplaceCardKeepsValid(cards, index, q);
      cards := cards[index := q];
      var pools := jackpots;
      if IsComplete(q) && t in pools {
        var j := pools[t];
        pools := pools[t := j.(amount := j.baseAmount, lastWonDate := Some(now), lastWinner := Some(playerId))];
      }
      progress, jackpots := cards, pools;
      if ParseSuit(suitName).None? {
        return UnknownSuit;
      }
      FlushProgressModel.FullSuitsIffComplete(q);
      out := Awarded(Suits(q), |Suits(q)|);
    }

    /** DELETE /reset: every card is deleted, whatever its session or completion; jackpots stay. */
    method Reset()
      requires Valid()
      modifies this
      ensures Valid()
      ensures progress == [] && jackpots == old(jackpots)
    {
      progress := [];
    }
  }
}
