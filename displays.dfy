/**
 * The aggregations behind the public status screens (backend/server.js):
 * `/api/live-status`, `/api/display/waitlist` and `/api/display/flush`.
 * Collections arrive as values; a game's `_id` is its index among the games.
 */
module Displays {
  import opened Wrappers
  import opened Models
  import opened FlushProgressModel
  import Tables
  import Waitlist
  import Flush
  import CalculatePoints
  import Seqs

  const MinutesPerWaitingEntry: int := 4
  const DisplayQueueLimit: nat := 10
  const FlushLeaderLimit: nat := 12

  // ---------------------------------------------------------------- live status

  datatype LiveStatus = LiveStatus(
    tablesOpen: nat,
    seatsAvailable: int,
    playersSeated: int,
    waitlistCount: nat,
    avgWaitMinutes: int)

  predicate IsOpen(t: Table) {
    t.status == Open
  }

  /** `Table.find({ status: 'open' })`, in stored order. */
  function OpenTables(tables: seq<Table>): seq<Table> {
    Seqs.Filter(tables, IsOpen)
  }

  function Capacity(t: Table): int {
    t.maxSeats
  }

  function SeatsTaken(seats: seq<Seat>): Table -> int {
    (t: Table) => Tables.Occupancy(seats, t.tableNumber) as int
  }

  function FreeSeats(seats: seq<Seat>): Table -> int {
    (t: Table) => t.maxSeats - Tables.Occupancy(seats, t.tableNumber)
  }

  /**
   * GET /api/live-status: the loop over open tables adds up capacities and
   * seat counts; the free seats are their difference; the waiting estimate
   * is four minutes per waiting or called entry.
   */
  method LiveStatusOf(tables: seq<Table>, seats: seq<Seat>, waitlist: seq<WaitlistEntry>) returns (s: LiveStatus)
    ensures s.tablesOpen == |OpenTables(tables)|
    ensures s.playersSeated == Seqs.Sum(OpenTables(tables), SeatsTaken(seats))
    ensures s.seatsAvailable == Seqs.Sum(OpenTables(tables), Capacity) - s.playersSeated
    ensures s.waitlistCount == Seqs.Count(waitlist, IsActive)
    ensures s.avgWaitMinutes == MinutesPerWaitingEntry * s.waitlistCount
  {
    var open := OpenTables(tables);
    var totalSeats, occupiedSeats := 0, 0;
    for i := 0 to |open|
      invariant totalSeats == Seqs.Sum(open[..i], Capacity)
      invariant occupiedSeats == Seqs.Sum(open[..i], SeatsTaken(seats))
    {
      assert open[..i + 1][..i] == open[..i];
      totalSeats := totalSeats + open[i].maxSeats;
      occupiedSeats := occupiedSeats + Tables.Occupancy(seats, open[i].tableNumber);
    }
    assert open[..|open|] == open;
    var waitlistCount := Seqs.Count(waitlist, IsActive);
    s := LiveStatus(|open|, totalSeats - occupiedSeats, occupiedSeats, waitlistCount,
                    if waitlistCount > 0 then waitlistCount * MinutesPerWaitingEntry else 0);
  }

  function Numbers(ts: seq<Table>): set<int> {
    set t | t in ts :: t.tableNumber
  }

  function OnOneOf(ns: set<int>): Seat -> bool {
    (s: Seat) => s.tableNumber in ns
  }

  /**
   * With table numbers unique, the seated total is the number of seats
   * standing at open tables, so it never exceeds the number of seats stored.
   */
  lemma {:induction false} SeatedAtOpenTables(ts: seq<Table>, seats: seq<Seat>)
    requires Seqs.DistinctBy(ts, Tables.NumberOf)
    ensures Seqs.Sum(ts, SeatsTaken(seats)) == Seqs.Count(seats, OnOneOf(Numbers(ts)))
    ensures Seqs.Sum(ts, SeatsTaken(seats)) <= |seats|
    decreases |ts|
  {
    if ts != [] {
      var n := |ts| - 1;
      var front := ts[..n];
      assert Seqs.DistinctBy(front, Tables.NumberOf) by {
        forall i, j | 0 <= i < j < |front| ensures front[i].tableNumber != front[j].tableNumber {
          assert front[i] == ts[i] && front[j] == ts[j];
        }
      }
      SeatedAtOpenTables(front, seats);
      var m := ts[n].tableNumber;
      assert m !in Numbers(front) by {
        forall t | t in front ensures t.tableNumber != m {
          var i :| 0 <= i < |front| && front[i] == t;
          assert ts[i] == t;
        }
      }
      assert ts == front + [ts[n]];
      assert Numbers(ts) == Numbers(front) + {m};
      Seqs.CountDisjointUnion(seats, OnOneOf(Numbers(front)), Tables.OnTable(m), OnOneOf(Numbers(ts)));
    }
  }

  /**
   * The free seats are the sum, over the open tables, of capacity less
   * occupancy; when no open table is over-seated the figure is never
   * negative.
   */
  lemma SeatsAvailableIsFreeSeats(tables: seq<Table>, seats: seq<Seat>)
    ensures Seqs.Sum(OpenTables(tables), Capacity) - Seqs.Sum(OpenTables(tables), SeatsTaken(seats)) ==
            Seqs.Sum(OpenTables(tables), FreeSeats(seats))
    ensures (forall t :: t in OpenTables(tables) ==> Tables.Occupancy(seats, t.tableNumber) <= t.maxSeats) ==>
            Seqs.Sum(OpenTables(tables), FreeSeats(seats)) >= 0
  {
    var open := OpenTables(tables);
    Seqs.SumDifference(open, Capacity, SeatsTaken(seats), FreeSeats(seats));
    if forall t :: t in open ==> Tables.Occupancy(seats, t.tableNumber) <= t.maxSeats {
      forall i | 0 <= i < |open| ensures FreeSeats(seats)(open[i]) >= 0 {
        assert open[i] in open;
      }
      Seqs.SumNonNegative(open, FreeSeats(seats));
    }
  }

  // ------------------------------------------------------------ waitlist board

  /** One game's panel on the waitlist screen. */
  datatype GameDisplay = GameDisplay(game: Game, tables: nat, seatsOpen: int, waitlist: seq<string>, waitlistCount: nat)

  /** The games with their ids. */
  function Catalogue(games: seq<Game>): (r: seq<(GameRef, Game)>)
    ensures |r| == |games|
    ensures forall i :: 0 <= i < |games| ==> r[i] == (i as GameRef, games[i])
  {
    seq(|games|, i requires 0 <= i < |games| => (i as GameRef, games[i]))
  }

  function IsActiveGame(g: (GameRef, Game)): bool {
    g.1.isActive
  }

  /** `Game.find({ isActive: true })`, in stored order. */
  function ActiveGames(games: seq<Game>): seq<(GameRef, Game)> {
    Seqs.Filter(Catalogue(games), IsActiveGame)
  }

  /** `t.gameName === game.name || t.game?.equals(game._id)` */
  function PlaysGame(g: (GameRef, Game)): Table -> bool {
    (t: Table) => t.gameName == g.1.name || t.game == Some(g.0)
  }

  function GameTables(tables: seq<Table>, g: (GameRef, Game)): seq<Table> {
    Seqs.Filter(OpenTables(tables), PlaysGame(g))
  }

  /** The game's waiting and called entries by ascending position, at most ten. */
  function QueueShown(waitlist: seq<WaitlistEntry>, g: Game): seq<WaitlistEntry> {
    Seqs.Take(Seqs.SortBy(Seqs.Filter(waitlist, Waitlist.InQueueOf(g.gameId)), Waitlist.ByPosition), DisplayQueueLimit)
  }

  function Names(es: seq<WaitlistEntry>): (r: seq<string>)
    ensures |r| == |es| && forall i :: 0 <= i < |es| ==> r[i] == es[i].playerName
  {
    seq(|es|, i requires 0 <= i < |es| => es[i].playerName)
  }

  /** The panel the handler builds for one active game. */
  function GameRow(g: (GameRef, Game), tables: seq<Table>, seats: seq<Seat>, waitlist: seq<WaitlistEntry>): GameDisplay {
    var mine := GameTables(tables, g);
    var queue := QueueShown(waitlist, g.1);
    GameDisplay(g.1, |mine|, Seqs.Sum(mine, FreeSeats(seats)), Names(queue), |queue|)
  }

  /** The inner loop: capacity less occupancy, added up over the given tables. */
  method SeatsOpen(gameTables: seq<Table>, seats: seq<Seat>) returns (seatsOpen: int)
    ensures seatsOpen == Seqs.Sum(gameTables, FreeSeats(seats))
  {
    seatsOpen := 0;
    for j := 0 to |gameTables|
      invariant seatsOpen == Seqs.Sum(gameTables[..j], FreeSeats(seats))
    {
      assert gameTables[..j + 1][..j] == gameTables[..j];
      seatsOpen := seatsOpen + gameTables[j].maxSeats - Tables.Occupancy(seats, gameTables[j].tableNumber);
    }
    assert gameTables[..|gameTables|] == gameTables;
  }

  /** GET /api/display/waitlist: the loop over active games, with its inner loop over each game's open tables. */
  method DisplayWaitlist(games: seq<Game>, tables: seq<Table>, seats: seq<Seat>, waitlist: seq<WaitlistEntry>)
    returns (rows: seq<GameDisplay>)
    ensures |rows| == |ActiveGames(games)|
    ensures forall i :: 0 <= i < |rows| ==> rows[i] == GameRow(ActiveGames(games)[i], tables, seats, waitlist)
  {
    var active := ActiveGames(games);
    var open := OpenTables(tables);
    rows := [];
    for k := 0 to |active|
      invariant |rows| == k
      invariant forall i :: 0 <= i < k ==> rows[i] == GameRow(active[i], tables, seats, waitlist)
    {
      var game := active[k];
      var gameTables := Seqs.Filter(open, PlaysGame(game));
      var seatsOpen := SeatsOpen(gameTables, seats);
      var queue := QueueShown(waitlist, game.1);
      rows := rows + [GameDisplay(game.1, |gameTables|, seatsOpen, Names(queue), |queue|)];
    }
  }

  /** The panels are those of the stored games that are active, each with its own id. */
  lemma ActiveGamesSpec(games: seq<Game>)
    ensures forall gi: GameRef, g :: (gi, g) in ActiveGames(games) <==> gi < |games| && games[gi] == g && g.isActive
  {
    var c := Catalogue(games);
    forall gi: GameRef, g | gi < |games| && games[gi] == g && g.isActive ensures (gi, g) in ActiveGames(games) {
      assert c[gi] == (gi, g);
    }
  }

  /**
   * A panel counts the game's open tables, offers the free seats at them, and
   * lists, by ascending position, the game's waiting or called entries, no
   * more than ten: `waitlist_count` is the length of that cut list, not the
   * length of the queue.
   */
  lemma GameRowSpec(g: (GameRef, Game), tables: seq<Table>, seats: seq<Seat>, waitlist: seq<WaitlistEntry>)
    ensures var r := GameRow(g, tables, seats, waitlist);
      && r.game == g.1
      && r.tables == Seqs.Count(OpenTables(tables), PlaysGame(g))
      && r.seatsOpen == Seqs.Sum(GameTables(tables, g), Capacity) - Seqs.Sum(GameTables(tables, g), SeatsTaken(seats))
      && r.waitlist == Names(QueueShown(waitlist, g.1))
      && r.waitlistCount == |r.waitlist| <= DisplayQueueLimit
      && r.waitlistCount == if Seqs.Count(waitlist, Waitlist.InQueueOf(g.1.gameId)) < DisplayQueueLimit
                            then Seqs.Count(waitlist, Waitlist.InQueueOf(g.1.gameId)) else DisplayQueueLimit
    ensures forall e :: e in QueueShown(waitlist, g.1) ==> e in waitlist && IsActive(e) && e.gameId == g.1.gameId
    ensures forall i, j :: 0 <= i < j < |QueueShown(waitlist, g.1)| ==>
      QueueShown(waitlist, g.1)[i].position <= QueueShown(waitlist, g.1)[j].position
    ensures Seqs.Count(waitlist, Waitlist.InQueueOf(g.1.gameId)) <= DisplayQueueLimit ==>
      forall e :: e in waitlist && IsActive(e) && e.gameId == g.1.gameId ==> e in QueueShown(waitlist, g.1)
  {
    var mine := GameTables(tables, g);
    Seqs.SumDifference(mine, Capacity, SeatsTaken(seats), FreeSeats(seats));
    var f := Seqs.Filter(waitlist, Waitlist.InQueueOf(g.1.gameId));
    Seqs.TopBy(f, Waitlist.ByPosition, DisplayQueueLimit);
    var q := QueueShown(waitlist, g.1);
    forall i, j | 0 <= i < j < |q| ensures q[i].position <= q[j].position {
      assert Waitlist.ByPosition(q[i]) <= Waitlist.ByPosition(q[j]);
    }
  }

  // --------------------------------------------------------------- flush board

  /** One leader on the flush screen. */
  datatype FlushLeader = FlushLeader(name: Option<string>, suits: seq<char>, score: string)

  datatype FlushDisplay = FlushDisplay(
    jackpots: map<SessionType, int>,
    activeSession: Option<SessionType>,
    leaders: seq<FlushLeader>)

  predicate HasAnySuit(p: FlushProgress) {
    |Suits(p)| > 0
  }

  function LeaderOf(p: FlushProgress): FlushLeader {
    FlushLeader(p.playerName, Suits(p), Flush.Score(|Suits(p)|))
  }

  /** The sort key of `(a, b) => b.suits.length - a.suits.length`. */
  function BySuitsDescending(l: FlushLeader): int {
    -|l.suits|
  }

  /** Every card with a badge, of any session and any date, as a leader, most badges first, at most twelve. */
  function Leaders(progress: seq<FlushProgress>): seq<FlushLeader> {
    Seqs.Take(Seqs.SortBy(LeaderRows(progress), BySuitsDescending), FlushLeaderLimit)
  }

  /** The cards holding a badge, as leader rows, in stored order. */
  function LeaderRows(progress: seq<FlushProgress>): seq<FlushLeader> {
    var shown := Seqs.Filter(progress, HasAnySuit);
    seq(|shown|, i requires 0 <= i < |shown| => LeaderOf(shown[i]))
  }

  /**
   * At most twelve leaders, each the row of a stored card holding from one
   * to four badges, with the score "k/4" for its k badges, by non-increasing
   * badge count; with fewer than twelve shown, every card holding a badge is
   * among them.
   */
  lemma LeadersSpec(progress: seq<FlushProgress>)
    ensures |Leaders(progress)| <= FlushLeaderLimit
    ensures forall l :: l in Leaders(progress) ==>
      && (exists p :: p in progress && HasAnySuit(p) && l == LeaderOf(p))
      && 1 <= |l.suits| <= 4 && l.score == Flush.Score(|l.suits|)
    ensures forall i, j :: 0 <= i < j < |Leaders(progress)| ==>
      |Leaders(progress)[i].suits| >= |Leaders(progress)[j].suits|
    ensures |Leaders(progress)| < FlushLeaderLimit ==>
      forall p :: p in progress && HasAnySuit(p) ==> LeaderOf(p) in Leaders(progress)
  {
    var rows := LeaderRows(progress);
    Seqs.TopBy(rows, BySuitsDescending, FlushLeaderLimit);
    var l := Leaders(progress);
    forall x | x in l ensures (exists p :: p in progress && HasAnySuit(p) && x == LeaderOf(p))
                           && 1 <= |x.suits| <= 4 && x.score == Flush.Score(|x.suits|) {
      LeaderRowsMembers(progress, x);
    }
    forall i, j | 0 <= i < j < |l| ensures |l[i].suits| >= |l[j].suits| {
      assert BySuitsDescending(l[i]) <= BySuitsDescending(l[j]);
    }
    if |l| < FlushLeaderLimit {
      forall p | p in progress && HasAnySuit(p) ensures LeaderOf(p) in l {
        LeaderRowsComplete(progress, p);
      }
    }
  }

  /** A row comes from a stored card that holds a badge. */
  lemma LeaderRowsMembers(progress: seq<FlushProgress>, x: FlushLeader)
    requires x in LeaderRows(progress)
    ensures exists p :: p in progress && HasAnySuit(p) && x == LeaderOf(p)
    ensures 1 <= |x.suits| <= 4 && x.score == Flush.Score(|x.suits|)
  {
    var shown := Seqs.Filter(progress, HasAnySuit);
    var rows := LeaderRows(progress);
    var i :| 0 <= i < |rows| && rows[i] == x;
    assert shown[i] in shown;
  }

  /** Every stored card holding a badge has its row. */
  lemma LeaderRowsComplete(progress: seq<FlushProgress>, p: FlushProgress)
    requires p in progress && HasAnySuit(p)
    ensures LeaderOf(p) in LeaderRows(progress)
  {
    var shown := Seqs.Filter(progress, HasAnySuit);
    var i :| 0 <= i < |shown| && shown[i] == p;
    assert LeaderRows(progress)[i] == LeaderOf(p);
  }

  /** `jackpots.reduce((acc, j) => { acc[j.sessionType] = j.amount; return acc; }, {})` */
  function JackpotAmounts(js: seq<FlushJackpot>): map<SessionType, int>
    decreases |js|
  {
    if js == [] then map[] else JackpotAmounts(js[..|js| - 1])[js[|js| - 1].sessionType := js[|js| - 1].amount]
  }

  /** The map has a key for each session type on record, holding the amount of its last record. */
  lemma {:induction false} JackpotAmountsSpec(js: seq<FlushJackpot>)
    ensures forall t :: t in JackpotAmounts(js) <==> exists i :: 0 <= i < |js| && js[i].sessionType == t
    ensures forall i :: 0 <= i < |js| && (forall j :: i < j < |js| ==> js[j].sessionType != js[i].sessionType) ==>
      JackpotAmounts(js)[js[i].sessionType] == js[i].amount
    decreases |js|
  {
    if js != [] {
      var n := |js| - 1;
      var front := js[..n];
      JackpotAmountsSpec(front);
      forall t ensures t in JackpotAmounts(js) <==> exists i :: 0 <= i < |js| && js[i].sessionType == t {
        if t in JackpotAmounts(front) {
          var i :| 0 <= i < |front| && front[i].sessionType == t;
          assert js[i] == front[i];
        }
        if exists i :: 0 <= i < |js| && js[i].sessionType == t {
          var i :| 0 <= i < |js| && js[i].sessionType == t;
          if i < n {
            assert front[i] == js[i];
          }
        }
      }
      forall i | 0 <= i < |js| && (forall j :: i < j < |js| ==> js[j].sessionType != js[i].sessionType)
        ensures JackpotAmounts(js)[js[i].sessionType] == js[i].amount
      {
        if i < n {
          assert front[i] == js[i];
          assert js[n].sessionType != js[i].sessionType;
          assert forall j :: i < j < |front| ==> front[j] == js[j];
        }
      }
    }
  }

  /** With `sessionType` unique, every jackpot's amount is shown under its own session type. */
  lemma UniqueJackpotsShown(js: seq<FlushJackpot>)
    requires Seqs.DistinctBy(js, (j: FlushJackpot) => j.sessionType)
    ensures forall i :: 0 <= i < |js| ==>
      js[i].sessionType in JackpotAmounts(js) && JackpotAmounts(js)[js[i].sessionType] == js[i].amount
  {
    JackpotAmountsSpec(js);
  }

  /** GET /api/display/flush at local `hour`. */
  function DisplayFlush(jackpots: seq<FlushJackpot>, progress: seq<FlushProgress>, hour: CalculatePoints.Hour): (d: FlushDisplay)
  {
    FlushDisplay(JackpotAmounts(jackpots), CalculatePoints.CurrentFlushSession(hour), Leaders(progress))
  }
}
