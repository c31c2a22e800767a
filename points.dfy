/**
 * The January points leaderboard, the top-30 cutoff and staff awards
 * (backend/routes/points.js), over the registry's players; a player's id is
 * its index. Players with equal points keep their stored order.
 */
module Points {
  import opened Wrappers
  import opened Models
  import opened PlayerModel
  import opened Players
  import Seqs

  const LeaderboardLimit: nat := 100
  const CutoffPlace: nat := 30

  /** One leaderboard row; `rank` counts from 1. */
  datatype LeaderEntry = LeaderEntry(rank: nat, id: PlayerId, cardNumber: string, name: string, points: int)

  function HasPoints(ps: seq<Player>): nat -> bool {
    (i: nat) => i < |ps| && ps[i].pointsJanuary > 0
  }

  /** The sort key of `{ pointsJanuary: -1 }`. */
  function PointsDescending(ps: seq<Player>): nat -> int {
    (i: nat) => if i < |ps| then -ps[i].pointsJanuary else 0
  }

  /** The players with positive points, in stored order. */
  function Positive(ps: seq<Player>): seq<nat> {
    Seqs.Filter(Seqs.Indices(|ps|), HasPoints(ps))
  }

  /** `find({ pointsJanuary: { $gt: 0 } }).sort({ pointsJanuary: -1 })`, as ids. */
  function ByPoints(ps: seq<Player>): seq<nat> {
    Seqs.SortBy(Positive(ps), PointsDescending(ps))
  }

  /** The sorted query holds each positive player once, in non-increasing points order. */
  lemma ByPointsSpec(ps: seq<Player>)
    ensures forall j: nat :: j in ByPoints(ps) <==> j < |ps| && ps[j].pointsJanuary > 0
    ensures Seqs.Distinct(ByPoints(ps))
    ensures Seqs.SortedBy(ByPoints(ps), PointsDescending(ps))
  {
    var f := Positive(ps);
    var s := ByPoints(ps);
    Seqs.FilterIndices(|ps|, HasPoints(ps));
    Seqs.SortByDistinct(f, PointsDescending(ps));
    forall j: nat ensures j in s <==> j < |ps| && ps[j].pointsJanuary > 0 {
      assert j in s <==> j in multiset(s);
      assert j in f <==> j in multiset(f);
    }
  }

  /** The same query with `.limit(limit)`. */
  function Ranked(ps: seq<Player>, limit: nat): (r: seq<nat>)
    ensures |r| <= limit
    ensures forall k :: 0 <= k < |r| ==> r[k] < |ps|
  {
    ByPointsSpec(ps);
    var s := ByPoints(ps);
    var r := Seqs.Take(s, limit);
    assert forall k :: 0 <= k < |r| ==> r[k] == s[k] && s[k] in s;
    r
  }

  /**
   * A ranking of `ps` cut at `limit`: distinct players with positive points,
   * in non-increasing points order; a positive player left out scores no
   * more than anyone listed, and is left out only because the list is full.
   */
  predicate IsRanking(ps: seq<Player>, limit: nat, r: seq<nat>) {
    && |r| <= limit
    && (forall k :: 0 <= k < |r| ==> r[k] < |ps| && ps[r[k]].pointsJanuary > 0)
    && Seqs.Distinct(r)
    && (forall a, b :: 0 <= a < b < |r| ==> ps[r[a]].pointsJanuary >= ps[r[b]].pointsJanuary)
    && (forall i :: 0 <= i < |ps| && ps[i].pointsJanuary > 0 && i !in r ==>
          |r| == limit && forall k :: 0 <= k < |r| ==> ps[i].pointsJanuary <= ps[r[k]].pointsJanuary)
  }

  lemma {:induction false} TakeOfSorted(ps: seq<Player>, limit: nat, s: seq<nat>, r: seq<nat>)
    requires forall j: nat :: j in s <==> j < |ps| && ps[j].pointsJanuary > 0
    requires Seqs.Distinct(s) && Seqs.SortedBy(s, PointsDescending(ps))
    requires r <= s && |r| == if |s| < limit then |s| else limit
    ensures IsRanking(ps, limit, r)
  {
    assert forall k :: 0 <= k < |r| ==> r[k] == s[k] && s[k] in s;
    forall a, b | 0 <= a < b < |r| ensures ps[r[a]].pointsJanuary >= ps[r[b]].pointsJanuary {
      assert PointsDescending(ps)(s[a]) <= PointsDescending(ps)(s[b]);
    }
    forall i | 0 <= i < |ps| && ps[i].pointsJanuary > 0 && i !in r
      ensures |r| == limit
      ensures forall k :: 0 <= k < |r| ==> ps[i].pointsJanuary <= ps[r[k]].pointsJanuary
    {
      assert i in s;
      var b :| 0 <= b < |s| && s[b] == i;
      forall c | 0 <= c < |r| ensures s[c] in r {
        assert r[c] == s[c];
      }
      forall k | 0 <= k < |r| ensures ps[i].pointsJanuary <= ps[r[k]].pointsJanuary {
        assert PointsDescending(ps)(s[k]) <= PointsDescending(ps)(s[b]);
      }
    }
  }

  /** The limited query is a ranking in the sense above. */
  lemma RankedSpec(ps: seq<Player>, limit: nat)
    ensures IsRanking(ps, limit, Ranked(ps, limit))
  {
    ByPointsSpec(ps);
    TakeOfSorted(ps, limit, ByPoints(ps), Ranked(ps, limit));
  }

  function Entry(ps: seq<Player>, id: nat, rank: nat): (e: LeaderEntry)
    requires id < |ps|
    ensures e.id == id && e.rank == rank && e.points == ps[id].pointsJanuary
  {
    LeaderEntry(rank, id, ps[id].cardNumber, Name(ps[id]), ps[id].pointsJanuary)
  }

  /** The `leaderboard` array: the first 100 ranked players, numbered from 1. */
  function Board(ps: seq<Player>): (b: seq<LeaderEntry>)
    ensures |b| == |Ranked(ps, LeaderboardLimit)|
  {
    var ids := Ranked(ps, LeaderboardLimit);
    seq(|ids|, k requires 0 <= k < |ids| => Entry(ps, ids[k], k + 1))
  }

  /** The player ids of the rows, in row order. */
  function Ids(board: seq<LeaderEntry>): (ids: seq<nat>)
    ensures |ids| == |board| && forall k :: 0 <= k < |board| ==> ids[k] == board[k].id
  {
    seq(|board|, k requires 0 <= k < |board| => board[k].id)
  }

  /**
   * A leaderboard of `ps`: at most 100 rows ranked 1, 2, ..., each a
   * different player with positive points showing that player's card, name
   * and points, in non-increasing points order; a positive player missing
   * from it scores no more than anyone listed and is missing only because
   * the board is full.
   */
  predicate IsBoard(ps: seq<Player>, board: seq<LeaderEntry>) {
    && |board| <= LeaderboardLimit
    && (forall k :: 0 <= k < |board| ==>
          && board[k].rank == k + 1 && board[k].id < |ps|
          && board[k].points == ps[board[k].id].pointsJanuary > 0
          && board[k].cardNumber == ps[board[k].id].cardNumber && board[k].name == Name(ps[board[k].id]))
    && (forall a, b :: 0 <= a < b < |board| ==> board[a].points >= board[b].points && board[a].id != board[b].id)
    && (forall i :: 0 <= i < |ps| && ps[i].pointsJanuary > 0 && i !in Ids(board) ==>
          |board| == LeaderboardLimit && forall k :: 0 <= k < |board| ==> ps[i].pointsJanuary <= board[k].points)
  }

  /** The rows list exactly the ranked ids. */
  lemma BoardIds(ps: seq<Player>)
    ensures Ids(Board(ps)) == Ranked(ps, LeaderboardLimit)
  {
  }

  /** GET /leaderboard's rows form a leaderboard in the sense above. */
  lemma BoardSpec(ps: seq<Player>)
    ensures IsBoard(ps, Board(ps))
  {
    var ids := Ranked(ps, LeaderboardLimit);
    var b := Board(ps);
    RankedSpec(ps, LeaderboardLimit);
    BoardIds(ps);
    assert forall k :: 0 <= k < |b| ==> b[k] == Entry(ps, ids[k], k + 1);
  }

  /** `top30_cutoff`: `leaderboard[29]?.points || 0`. */
  function Cutoff(board: seq<LeaderEntry>): int {
    if |board| >= CutoffPlace && board[CutoffPlace - 1].points != 0 then board[CutoffPlace - 1].points else 0
  }

  /**
   * The cutoff is the 30th row's points, positive exactly when 30 players
   * have points (0 otherwise), and all of the top 30 reach it.
   */
  lemma CutoffSpec(ps: seq<Player>)
    ensures |Board(ps)| >= CutoffPlace ==> Cutoff(Board(ps)) == Board(ps)[CutoffPlace - 1].points
    ensures Cutoff(Board(ps)) > 0 <==> |Board(ps)| >= CutoffPlace
    ensures Cutoff(Board(ps)) >= 0
    ensures forall k :: 0 <= k < CutoffPlace && k < |Board(ps)| ==> Board(ps)[k].points >= Cutoff(Board(ps))
  {
    BoardSpec(ps);
  }

  /** GET /top30: the 30th player's points (or 0) and how many of the top 30 exist. */
  function Top30(ps: seq<Player>): (cutoffAndCount: (int, nat))
    ensures cutoffAndCount.1 <= CutoffPlace
  {
    var ids := Ranked(ps, CutoffPlace);
    var cutoff := if |ids| >= CutoffPlace && ps[ids[CutoffPlace - 1]].pointsJanuary != 0
                  then ps[ids[CutoffPlace - 1]].pointsJanuary else 0;
    (cutoff, |ids|)
  }

  /** The two routes agree: /top30's cutoff is the leaderboard's, and it counts the leaderboard's first 30 rows. */
  lemma Top30AgreesWithBoard(ps: seq<Player>)
    ensures Top30(ps).0 == Cutoff(Board(ps))
    ensures Top30(ps).1 == if |Board(ps)| < CutoffPlace then |Board(ps)| else CutoffPlace
  {
    var s := ByPoints(ps);
    var top, board := Ranked(ps, CutoffPlace), Ranked(ps, LeaderboardLimit);
    assert top == Seqs.Take(s, CutoffPlace);
    assert board == Seqs.Take(s, LeaderboardLimit);
    if |s| >= CutoffPlace {
      assert top[CutoffPlace - 1] == s[CutoffPlace - 1] == board[CutoffPlace - 1];
    }
  }

  /** The players after the `for` loop has written each row's rank to its player, in row order. */
  function WriteRanks(ps: seq<Player>, board: seq<LeaderEntry>): (r: seq<Player>)
    ensures |r| == |ps|
    decreases |board|
  {
    if board == [] then ps
    else
      var prev := WriteRanks(ps, board[..|board| - 1]);
      var e := board[|board| - 1];
      if e.id < |prev| then prev[e.id := prev[e.id].(rank := Some(e.rank))] else prev
  }

  /**
   * When the rows name different players, the loop leaves each listed player
   * with its row's rank, keeps every unlisted player as it was, and changes
   * no field but `rank`.
   */
  lemma {:induction false} WriteRanksSpec(ps: seq<Player>, board: seq<LeaderEntry>)
    requires forall a, b :: 0 <= a < b < |board| ==> board[a].id != board[b].id
    ensures forall k :: 0 <= k < |board| && board[k].id < |ps| ==> WriteRanks(ps, board)[board[k].id].rank == Some(board[k].rank)
    ensures forall i :: 0 <= i < |ps| && i !in Ids(board) ==> WriteRanks(ps, board)[i] == ps[i]
    ensures forall i :: 0 <= i < |ps| ==> WriteRanks(ps, board)[i].(rank := ps[i].rank) == ps[i]
    decreases |board|
  {
    if board != [] {
      var n := |board| - 1;
      var front := board[..n];
      WriteRanksSpec(ps, front);
      var prev := WriteRanks(ps, front);
      var e := board[n];
      assert forall k :: 0 <= k < n ==> front[k] == board[k];
      forall i | 0 <= i < |ps| && i !in Ids(board) ensures WriteRanks(ps, board)[i] == ps[i] {
        assert i != e.id by { assert Ids(board)[n] == e.id; }
        assert Ids(front) == Ids(board)[..n];
      }
    }
  }

  /** GET /leaderboard stores rank k + 1 on the k-th listed player and touches nothing else. */
  lemma RanksStoredSpec(ps: seq<Player>)
    ensures forall k :: 0 <= k < |Board(ps)| ==> WriteRanks(ps, Board(ps))[Board(ps)[k].id].rank == Some(k + 1)
    ensures forall i :: 0 <= i < |ps| && i !in Ids(Board(ps)) ==> WriteRanks(ps, Board(ps))[i] == ps[i]
    ensures forall i :: 0 <= i < |ps| ==> WriteRanks(ps, Board(ps))[i].(rank := ps[i].rank) == ps[i]
  {
    BoardSpec(ps);
    WriteRanksSpec(ps, Board(ps));
  }

  /** GET /leaderboard: the rows, the cutoff, and the `for` loop that stores each row's rank. */
  method Leaderboard(reg: PlayerRegistry) returns (board: seq<LeaderEntry>, cutoff: int)
    modifies reg
    ensures board == Board(old(reg.players))
    ensures cutoff == Cutoff(board)
    ensures reg.players == WriteRanks(old(reg.players), board)
    ensures reg.checkins == old(reg.checkins) && reg.transactions == old(reg.transactions)
  {
    var ps := reg.players;
    board := Board(ps);
    var updated := ps;
    for k := 0 to |board|
      invariant |updated| == |ps|
      invariant updated == WriteRanks(ps, board[..k])
    {
      var e := board[k];
      assert board[..k + 1][..k] == board[..k];
      if e.id < |updated| {
        updated := updated[e.id := updated[e.id].(rank := Some(e.rank))];
      }
    }
    assert board[..|board|] == board;
    reg.players := updated;
    cutoff := Cutoff(board);
  }

  /** `new_total`: the player's points after the award, or the awarded amount when there is no player or the total is 0. */
  function NewTotal(ps: seq<Player>, id: nat, points: int): (t: int)
    ensures id < |ps| && ps[id].pointsJanuary != 0 ==> t == ps[id].pointsJanuary
    ensures id >= |ps| || ps[id].pointsJanuary == 0 ==> t == points
  {
    if id < |ps| && ps[id].pointsJanuary != 0 then ps[id].pointsJanuary else points
  }

  /**
   * POST /award: the player (when present) gains exactly `points`, and one
   * bonus transaction is recorded whether or not the player exists.
   */
  method Award(reg: PlayerRegistry, id: nat, points: int, reason: Option<string>, staff: StaffId, now: Millis)
    returns (newTotal: int)
    modifies reg
    ensures reg.players == if id < |old(reg.players)|
      then old(reg.players)[id := old(reg.players)[id].(pointsJanuary := old(reg.players)[id].pointsJanuary + points)]
      else old(reg.players)
    ensures reg.transactions == old(reg.transactions) +
      [PointsTransaction(id, if id < |reg.players| then Some(Name(reg.players[id])) else None, points, Bonus, reason, Some(staff), now)]
    ensures reg.checkins == old(reg.checkins)
    ensures newTotal == NewTotal(reg.players, id, points)
  {
    if id < |reg.players| {
      var p := reg.players[id];
      reg.players := reg.players[id := p.(pointsJanuary := p.pointsJanuary + points)];
    }
    var name := if id < |reg.players| then Some(Name(reg.players[id])) else None;
    reg.transactions := reg.transactions + [PointsTransaction(id, name, points, Bonus, reason, Some(staff), now)];
    newTotal := NewTotal(reg.players, id, points);
  }

  /** The reported total is the old total plus the award, unless that sum is 0 or the player is missing. */
  lemma NewTotalAfterAward(ps: seq<Player>, id: nat, points: int)
    requires id < |ps|
    ensures var after := ps[id := ps[id].(pointsJanuary := ps[id].pointsJanuary + points)];
      NewTotal(after, id, points) == if ps[id].pointsJanuary + points != 0 then ps[id].pointsJanuary + points else points
  {
  }
}
