/**
 * Record shapes shared by several route modules (the files under backend/models).
 * Timestamps are integer milliseconds since the epoch. A document id of a
 * collection from which nothing is ever deleted (players, games, waitlist
 * entries, orders, tournaments) is its index in the collection's sequence.
 */
module Models {
  import opened Wrappers

  type Millis = int
  type PlayerId = nat
  type StaffId = nat
  type GameRef = nat

  /** JavaScript's `v || d` on an optional number: an absent value or 0 (falsy) gives `d`. */
  function OrDefault(v: Option<int>, d: int): (r: int)
    ensures r == d || (v.Some? && r == v.value && r != 0)
  {
    if v.None? || v.value == 0 then d else v.value
  }

  /** JavaScript's `s || d` on an optional string: an absent value or "" (falsy) gives `d`. */
  function OrDefaultText(v: Option<string>, d: string): (r: string)
    ensures r == d || (v.Some? && r == v.value && r != "")
  {
    if v.None? || v.value == "" then d else v.value
  }

  /** The two promotional flush sessions: `flush_shine` (afternoon) and `last_call` (late night). */
  datatype SessionType = FlushShine | LastCall

  function SessionTypeName(t: SessionType): string {
    match t
    case FlushShine => "flush_shine"
    case LastCall => "last_call"
  }

  /** A cash game offered on the floor (Game.js). */
  datatype Game = Game(gameId: string, name: string, stakes: Option<string>, isActive: bool)

  /** Waitlist.js:13 */
  datatype WaitlistStatus = Waiting | Called | Seated | Removed

  /** One request to be seated in a game (Waitlist.js). */
  datatype WaitlistEntry = WaitlistEntry(
    player: Option<PlayerId>,
    playerName: string,
    phone: string,
    cardNumber: Option<string>,
    gameId: string,
    position: int,
    numPlayers: int,
    plannedBuyin: int,
    status: WaitlistStatus,
    joinedAt: Millis,
    calledAt: Option<Millis>,
    calledBy: Option<StaffId>,
    expiresAt: Option<Millis>,
    seatedAt: Option<Millis>,
    removedAt: Option<Millis>)

  /** An entry still in the queue: the listing filter `status in ['waiting', 'called']`. */
  predicate IsActive(e: WaitlistEntry) {
    e.status == Waiting || e.status == Called
  }

  /** Table.js:9 */
  datatype TableStatus = Open | Closed | Reserved

  /** A poker table (Table.js); `tableNumber` is unique across the collection. */
  datatype Table = Table(
    tableNumber: int,
    game: Option<GameRef>,
    gameName: string,
    stakes: string,
    maxSeats: int,
    status: TableStatus,
    openedAt: Option<Millis>,
    closedAt: Option<Millis>,
    openedBy: Option<StaffId>)

  /** An occupied seat (Seat.js); a vacated seat is deleted, not marked. */
  datatype Seat = Seat(
    tableNumber: int,
    seatNumber: int,
    player: Option<PlayerId>,
    playerName: Option<string>,
    cardNumber: Option<string>,
    seatedAt: Millis,
    seatedBy: Option<StaffId>)

  /** The pool a completed flush wins (FlushJackpot.js); one record per session type. */
  datatype FlushJackpot = FlushJackpot(
    sessionType: SessionType,
    name: string,
    amount: int,
    baseAmount: int,
    lastWonDate: Option<Millis>,
    lastWinner: Option<PlayerId>,
    dailyIncrement: int)
}
