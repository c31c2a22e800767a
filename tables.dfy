/**
 * Tables and seats (backend/routes/tables.js): the occupancy listing, opening
 * and closing a table, seating a player and vacating a seat.
 *
 * `tableNumber` carries a unique index, so opening a number that already
 * exists as a closed or reserved table fails when the table is created. The
 * games collection is read-only here and is passed in.
 */
module Tables {
  import opened Wrappers
  import opened Models
  import Seqs

  const DefaultMaxSeats: int := 9
  const UnknownGameName: string := "Unknown"
  const DefaultStakes: string := "$1/$3"

  /** A table with its seats and occupancy, as the listing and detail handlers return it. */
  datatype TableView = TableView(table: Table, seats: seq<Seat>, occupiedCount: int, availableSeats: int)

  datatype OpenOutcome = Opened(id: nat) | AlreadyOpen | StorageConflict
  datatype SeatOutcome = SeatTaken(id: nat) | TableNotFound | SeatOccupied

  function NumberOf(t: Table): int {
    t.tableNumber
  }

  function SpotOf(s: Seat): (int, int) {
    (s.tableNumber, s.seatNumber)
  }

  function HasNumber(n: int): Table -> bool {
    (t: Table) => t.tableNumber == n
  }

  function IsOpenNumber(n: int): Table -> bool {
    (t: Table) => t.tableNumber == n && t.status == Open
  }

  function OnTable(n: int): Seat -> bool {
    (s: Seat) => s.tableNumber == n
  }

  function OffTable(n: int): Seat -> bool {
    (s: Seat) => s.tableNumber != n
  }

  function AtSpot(n: int, k: int): Seat -> bool {
    (s: Seat) => s.tableNumber == n && s.seatNumber == k
  }

  function NotClosed(t: Table): bool {
    t.status != Closed
  }

  function HasGameId(id: string): Game -> bool {
    (g: Game) => g.gameId == id
  }

  /** The seats of table `n`. */
  function Occupancy(seats: seq<Seat>, n: int): nat {
    |Seqs.Filter(seats, OnTable(n))|
  }

  /** `{ ...table, seats, occupied_count, available_seats }`. */
  function Enrich(t: Table, seats: seq<Seat>): TableView {
    var mine := Seqs.Filter(seats, OnTable(t.tableNumber));
    TableView(t, mine, |mine|, t.maxSeats - |mine|)
  }

  /** GET /: every table that is not closed, enriched, in stored order. */
  function ListTables(tables: seq<Table>, seats: seq<Seat>): seq<TableView> {
    var shown := Seqs.Filter(tables, NotClosed);
    seq(|shown|, i requires 0 <= i < |shown| => Enrich(shown[i], seats))
  }

  /**
   * The listing holds one view per table that is not closed; in each view the
   * seats are exactly that table's seats, and the free count is the capacity
   * less that number, which goes negative when the table is over-seated.
   */
  lemma ListingSpec(tables: seq<Table>, seats: seq<Seat>)
    ensures |ListTables(tables, seats)| == |Seqs.Filter(tables, NotClosed)|
    ensures forall v :: v in ListTables(tables, seats) ==>
      && v.table in tables && v.table.status != Closed
      && (forall s :: s in v.seats <==> s in seats && s.tableNumber == v.table.tableNumber)
      && v.occupiedCount == Occupancy(seats, v.table.tableNumber)
      && v.availableSeats == v.table.maxSeats - v.occupiedCount
    ensures forall t :: t in tables && t.status != Closed ==> Enrich(t, seats) in ListTables(tables, seats)
  {
    var shown := Seqs.Filter(tables, NotClosed);
    var r := ListTables(tables, seats);
    forall v | v in r
      ensures v.table in tables && v.table.status != Closed
    {
      var i :| 0 <= i < |r| && r[i] == v;
      assert shown[i] in shown;
    }
    forall t | t in tables && t.status != Closed ensures Enrich(t, seats) in r {
      assert t in shown;
      var i :| 0 <= i < |shown| && shown[i] == t;
      assert r[i] == Enrich(t, seats);
    }
  }

  /** GET /:tableNumber: the table with that number, of any status, enriched; None is the 404. */
  function TableDetails(tables: seq<Table>, seats: seq<Seat>, n: int): (r: Option<TableView>)
    ensures r.None? <==> forall t :: t in tables ==> t.tableNumber != n
    ensures r.Some? ==> r.value.table in tables && r.value.table.tableNumber == n
    ensures r.Some? ==> r.value.occupiedCount == Occupancy(seats, n)
  {
    var i := Seqs.FindFirst(tables, HasNumber(n));
    if i.None? then None else Some(Enrich(tables[i.value], seats))
  }

  /** Seating one more player at table `n` raises its occupancy by exactly one; nothing caps it at `maxSeats`. */
  lemma OccupancyAfterSeating(seats: seq<Seat>, s: Seat)
    ensures Occupancy(seats + [s], s.tableNumber) == Occupancy(seats, s.tableNumber) + 1
    ensures forall n :: n != s.tableNumber ==> Occupancy(seats + [s], n) == Occupancy(seats, n)
  {
    forall n ensures Seqs.Filter(seats + [s], OnTable(n)) == Seqs.Filter(seats, OnTable(n)) + Seqs.Filter([s], OnTable(n)) {
      Seqs.FilterAppend(seats, [s], OnTable(n));
    }
    assert forall n :: Seqs.Filter([s], OnTable(n)) == (if s.tableNumber == n then [s] else []) by {
      assert [s][..0] == [];
    }
  }

  /** A closed table has no seats left. */
  lemma ClosedTableIsEmpty(seats: seq<Seat>, n: int)
    ensures Occupancy(Seqs.Filter(seats, OffTable(n)), n) == 0
    ensures forall m :: m != n ==> Occupancy(Seqs.Filter(seats, OffTable(n)), m) == Occupancy(seats, m)
  {
    var kept := Seqs.Filter(seats, OffTable(n));
    Seqs.FilterNone(kept, OnTable(n));
    forall m | m != n ensures Occupancy(kept, m) == Occupancy(seats, m) {
      OtherTablesKept(seats, n, m);
    }
  }

  /** Deleting table `n`'s seats leaves table `m`'s seats as they were. */
  lemma {:induction false} OtherTablesKept(seats: seq<Seat>, n: int, m: int)
    requires m != n
    ensures Seqs.Filter(Seqs.Filter(seats, OffTable(n)), OnTable(m)) == Seqs.Filter(seats, OnTable(m))
    decreases |seats|
  {
    if seats != [] {
      var init, last := seats[..|seats| - 1], seats[|seats| - 1];
      OtherTablesKept(init, n, m);
      var kept := Seqs.Filter(init, OffTable(n));
      var tail: seq<Seat> := if last.tableNumber != n then [last] else [];
      Seqs.FilterAppend(kept, tail, OnTable(m));
      assert [last][..0] == [];
    }
  }

  class TableFloor {
    var tables: seq<Table>
    var seats: seq<Seat>

    /** The unique indexes on `tableNumber` and on (table, seatNumber), and every seat belongs to a stored table. */
    ghost predicate Valid()
      reads this
    {
      && Seqs.DistinctBy(tables, NumberOf)
      && Seqs.DistinctBy(seats, SpotOf)
      && forall s :: s in seats ==> exists t :: t in tables && t.tableNumber == s.tableNumber
    }

    constructor ()
      ensures Valid() && tables == [] && seats == []
    {
      tables := [];
      seats := [];
    }

    /**
     * POST /: 400 when an open table has the number; otherwise a new open table
     * for the game looked up by `gameId` (name "Unknown" and stakes "$1/$3" when
     * there is no such game or the field is empty, capacity 9 when absent or 0).
     * A closed or reserved table with the number makes the create fail.
     */
    method OpenTable(n: int, gameId: string, capacity: Option<int>, games: seq<Game>, staff: StaffId, now: Millis)
      returns (out: OpenOutcome)
      requires Valid()
      modifies this
      ensures Valid()
      ensures seats == old(seats)
      ensures out == AlreadyOpen <==> exists t :: t in old(tables) && t.tableNumber == n && t.status == Open
      ensures out == StorageConflict <==>
        (exists t :: t in old(tables) && t.tableNumber == n) && !(exists t :: t in old(tables) && t.tableNumber == n && t.status == Open)
      ensures !out.Opened? ==> tables == old(tables)
      ensures out.Opened? ==> out.id == old(|tables|) && tables == old(tables) + [NewTable(n, gameId, capacity, games, staff, now)]
    {
      var existing := Seqs.FindFirst(tables, IsOpenNumber(n));
      if existing.Some? {
        assert tables[existing.value] in tables;
        return AlreadyOpen;
      }
      var clash := Seqs.FindFirst(tables, HasNumber(n));
      if clash.Some? {
        assert tables[clash.value] in tables;
        return StorageConflict;
      }
      var t := NewTable(n, gameId, capacity, games, staff, now);
      out := Opened(|tables|);
      Seqs.AppendDistinctBy(tables, NumberOf, t);
      tables := tables + [t];
    }

    /** DELETE /:tableNumber: the table with the number (if any) becomes closed, and every seat at that number is deleted. */
    method CloseTable(n: int, now: Millis)
      requires Valid()
      modifies this
      ensures Valid()
      ensures seats == Seqs.Filter(old(seats), OffTable(n))
      ensures var i := Seqs.FindFirst(old(tables), HasNumber(n));
        tables == if i.None? then old(tables)
                  else old(tables)[i.value := old(tables)[i.value].(status := Closed, closedAt := Some(now))]
    {
      var i := Seqs.FindFirst(tables, HasNumber(n));
      if i.Some? {
        tables := tables[i.value := tables[i.value].(status := Closed, closedAt := Some(now))];
      }
      Seqs.FilterDistinctBy(seats, SpotOf, OffTable(n));
      ghost var before := tables;
      seats := Seqs.Filter(seats, OffTable(n));
      forall s | s in seats ensures exists t :: t in tables && t.tableNumber == s.tableNumber {
        var t :| t in old(tables) && t.tableNumber == s.tableNumber;
        var k :| 0 <= k < |old(tables)| && old(tables)[k] == t;
        assert tables[k].tableNumber == t.tableNumber;
      }
    }

    /** POST /:tableNumber/seats/:seatNumber: 404 without a table of that number, 400 when the seat is taken, else one new seat. */
    method SeatPlayer(n: int, k: int, player: Option<PlayerId>, playerName: Option<string>, cardNumber: Option<string>,
                      staff: StaffId, now: Millis)
      returns (out: SeatOutcome)
      requires Valid()
      modifies this
      ensures Valid()
      ensures tables == old(tables)
      ensures out == TableNotFound <==> forall t :: t in old(tables) ==> t.tableNumber != n
      ensures out == SeatOccupied <==>
        (exists t :: t in old(tables) && t.tableNumber == n) && exists s :: s in old(seats) && SpotOf(s) == (n, k)
      ensures !out.SeatTaken? ==> seats == old(seats)
      ensures out.SeatTaken? ==> out.id == old(|seats|) && seats == old(seats) + [Seat(n, k, player, playerName, cardNumber, now, Some(staff))]
    {
      var t := Seqs.FindFirst(tables, HasNumber(n));
      if t.None? {
        return TableNotFound;
      }
      assert tables[t.value] in tables;
      var existing := Seqs.FindFirst(seats, AtSpot(n, k));
      if existing.Some? {
        assert seats[existing.value] in seats;
        return SeatOccupied;
      }
      var s := Seat(n, k, player, playerName, cardNumber, now, Some(staff));
      Seqs.AppendDistinctBy(seats, SpotOf, s);
      out := SeatTaken(|seats|);
      seats := seats + [s];
    }

    /** DELETE /:tableNumber/seats/:seatNumber: deletes the seat there if there is one; always a success. */
    method Vacate(n: int, k: int)
      requires Valid()
      modifies this
      ensures Valid()
      ensures tables == old(tables)
      ensures var i := Seqs.FindFirst(old(seats), AtSpot(n, k));
        seats == if i.None? then old(seats) else Seqs.RemoveAt(old(seats), i.value)
      ensures forall s :: s in seats <==> s in old(seats) && SpotOf(s) != (n, k)
    {
      var i := Seqs.FindFirst(seats, AtSpot(n, k));
      if i.Some? {
        var j := i.value;
        assert seats == seats[..j] + [seats[j]] + seats[j + 1..];
        forall s | s in old(seats) && SpotOf(s) != (n, k) ensures s in seats[..j] + seats[j + 1..] { }
        forall x | x in seats[..j] + seats[j + 1..] ensures SpotOf(x) != (n, k) {
          var m :| 0 <= m < |seats| && m != j && seats[m] == x by {
            if x in seats[..j] {
              var m :| 0 <= m < j && seats[..j][m] == x;
            } else {
              var m :| 0 <= m < |seats[j + 1..]| && seats[j + 1..][m] == x;
              assert seats[j + 1 + m] == x;
            }
          }
        }
        seats := Seqs.RemoveAt(seats, j);
      }
    }
  }

  /** The table `POST /` creates. */
  function NewTable(n: int, gameId: string, capacity: Option<int>, games: seq<Game>, staff: StaffId, now: Millis): (t: Table)
    ensures t.tableNumber == n && t.status == Open && t.openedAt == Some(now) && t.openedBy == Some(staff)
    ensures t.maxSeats == if capacity.None? || capacity.value == 0 then DefaultMaxSeats else capacity.value
    ensures Seqs.FindFirst(games, HasGameId(gameId)).None? ==>
      t.game.None? && t.gameName == UnknownGameName && t.stakes == DefaultStakes
    ensures Seqs.FindFirst(games, HasGameId(gameId)).Some? ==>
      var g := games[Seqs.FindFirst(games, HasGameId(gameId)).value];
      && t.game == Seqs.FindFirst(games, HasGameId(gameId))
      && g.gameId == gameId
      && t.gameName == (if g.name == "" then UnknownGameName else g.name)
      && t.stakes == (if g.stakes.None? || g.stakes.value == "" then DefaultStakes else g.stakes.value)
  {
    var gi := Seqs.FindFirst(games, HasGameId(gameId));
    var game: Option<Game> := if gi.Some? then Some(games[gi.value]) else None;
    Table(n, gi,
      OrDefaultText(if game.Some? then Some(game.value.name) else None, UnknownGameName),
      OrDefaultText(if game.Some? then game.value.stakes else None, DefaultStakes),
      OrDefault(capacity, DefaultMaxSeats), Open, Some(now), None, Some(staff))
  }
}
