# Casino floor backend — a Dafny model

This project models the business rules of a casino-floor backend written as
an Express/MongoDB service. It covers the poker-room waitlist, tables and
seats, and the "flush attack" badge promotion with its jackpots. It also
covers cash-game check-in and check-out with loyalty points, the points
leaderboard, the login throttle, player and staff login and registration,
food orders, tournament registration, the staff activity log, and the public
status screens.

Each MongoDB collection is an in-memory sequence (or a map, where the source
keys by a unique field). A handler that writes to a collection becomes a
method of a class that holds that collection. Queries, sorts and derived
views are functions, and lemmas prove what each of them promises. Documents
in a collection that is never deleted from are identified by their index.
Time is an integer number of milliseconds, and the clock is a parameter
wherever the source reads it.

Module layout: one module per source file, plus four helper modules.
- `Wrappers` holds `Option`.
- `Seqs` holds the query helpers: filter, stable sort, take, sum and first match.
- `Text` holds decimal rendering and ASCII case mapping.
- `Models` holds the records that several modules share (from `backend/models`).

## Behaviour of the code worth knowing

- **Waitlist positions can repeat and can leave gaps.**
  - Positions are renumbered only after a seat, and then only `waiting`
    entries move; a called entry keeps its position.
  - `Waitlist.CalledEntryCanSharePosition` exhibits a called entry and a
    renumbered entry ending up on the same position.
  - Removal and expiry renumber nothing, so no gap-free invariant is claimed.
- **No status guards.** "call" and "seat" apply to an entry whatever its
  status, a removed or seated one included.
- **Session date.** The flush session date is the current UTC date, so an
  award at 00:30 during last_call is dated by the new day (see
  `CalculatePoints.AfterMidnightAwardUsesCurrentDay`).
- **Completion time.** `completedAt` is stamped again on every award to a
  card that already holds all four badges.
- **Tournament counters.** `registeredCount` is a counter raised by one per
  registration. It is not tied to the stored registrations, and seeded
  tournaments start with counts and no registrations.

## Model

| member | source | states |
|---|---|---|
| CalculatePoints.CalculateCashPoints | backend/utils/calculatePoints.js:12-16 | The result is 0, 10 or 30; it is 30 exactly when hours ≥ 6 and positive exactly when hours ≥ 1 |
| CalculatePoints.CashPointsMonotone | backend/utils/calculatePoints.js:12-16 | More hours never earn fewer points |
| CalculatePoints.CashPointsBoundaries | backend/utils/calculatePoints.js:1-16 | Just under and exactly at 1 and 6 hours give 0, 10, 10 and 30, the configured `cash_hourly` and `cash_daily` values |
| CalculatePoints.CashPointsOfElapsed | backend/routes/players.js:121-123 | Dividing elapsed milliseconds by 3,600,000 and comparing with 1 and 6 agrees with exact integer thresholds on milliseconds |
| CalculatePoints.CurrentFlushSession | backend/utils/calculatePoints.js:19-29 | flush_shine exactly for hours 14-19, last_call exactly for 20-23 and 0-1, none exactly for 2-13 |
| CalculatePoints.SessionWindows | backend/utils/calculatePoints.js:23-28 | Each session covers exactly six hours and the two sets of hours are disjoint |
| CalculatePoints.SessionDate | backend/utils/calculatePoints.js:32-34 | The date is the prefix of the ISO timestamp before its first 'T' and contains no 'T' |
| CalculatePoints.SessionDatePrefix | backend/utils/calculatePoints.js:32-34 | A date followed by 'T' and any text yields that date back |
| CalculatePoints.AfterMidnightAwardUsesCurrentDay | backend/utils/calculatePoints.js:19-34 | At 00:xx the session is last_call while the date is the new UTC day |
| FlushProgressModel.NewProgress | backend/models/FlushProgress.js:3-16 | A new card has all four badges false, no completion time and an empty `suits` |
| FlushProgressModel.BadgeCount | backend/models/FlushProgress.js:9-12 | The number of badges held is at most 4 |
| FlushProgressModel.Suits | backend/models/FlushProgress.js:19-26 | `suits` has one code per held badge, no duplicates, and only codes of held badges |
| FlushProgressModel.SuitsIsOrderedFilter | backend/models/FlushProgress.js:19-26 | `suits` is S, H, D, C filtered by the flags, so it keeps that fixed order |
| FlushProgressModel.FullSuitsIffComplete | backend/models/FlushProgress.js:19-26 | `suits` has length 4 exactly when all four flags are set, and is then S, H, D, C |
| FlushProgressModel.ParseSuit | backend/routes/flush.js:88 | Only the four field names "spade", "heart", "diamond", "club" name a badge |
| FlushProgressModel.SetBadge | backend/routes/flush.js:88 | The named badge becomes true, the other three keep their values, and nothing else changes |
| FlushProgressModel.SetBadgeMonotone | backend/routes/flush.js:88 | No badge is lost, at most one is gained, and re-awarding the same suit changes nothing |
| Flush.ToRow | backend/routes/flush.js:21-30 | A row's count equals its number of suits, which is the card's badge count |
| Flush.ApplyAward | backend/routes/flush.js:88-93 | The award sets the badge and `updatedAt`, and sets `completedAt` = now exactly when the card is then full |
| Flush.ApplyAwardKeepsCompletion | backend/routes/flush.js:88-93 | The award keeps "completion time present exactly when all four badges are held" and never loses a badge |
| Flush.FourSuitsComplete | backend/routes/flush.js:88-93 | Awarding the four different suits completes any card, stamped with the award time |
| Flush.LeaderboardSpec | backend/routes/flush.js:13-31 | One row per card of the running session and date and no other, in non-increasing count; empty outside the session windows |
| Flush.ReplaceCardKeepsValid | backend/routes/flush.js:71-113 | Replacing a card by its awarded version keeps one card per (player, session, date) and keeps the completion invariant |
| Flush.FlushTracker.constructor | backend/models/FlushJackpot.js:4 | The tracker starts with no cards and with jackpots that sit under their own session types |
| Flush.FlushTracker.AwardSuit | backend/routes/flush.js:58-135 | Outside a session: 400, nothing written. Unknown player: 404, nothing written. A card that must be created with an empty date is refused, nothing written. Otherwise the card is found or created, at most one per key, and awarded. A full card resets the session's jackpot to base, recording the winner and date. The answer is the suits and their count exactly when the suit is one of the four; any other name gives the 500 of the rejected activity entry after the same writes |
| Flush.FlushTracker.Reset | backend/routes/flush.js:144 | Every card is deleted, whatever its session or completion; jackpots are unchanged |
| CronService.Expire | backend/services/cronService.js:10-24 | The sweep keeps the ledger's length |
| CronService.ExpireSpec | backend/services/cronService.js:10-24 | Every called entry whose expiry is strictly before now becomes removed at now; all other entries are untouched; no position changes |
| CronService.ExpireIdempotent | backend/services/cronService.js:10-24 | A second sweep at the same time changes nothing |
| CronService.ExpireCalledEntries | backend/services/cronService.js:15-24 | The loop leaves the ledger equal to the sweep of the old ledger and reports as many entries as the query matched |
| CronService.ExpiredCount | backend/services/cronService.js:10-15 | The loop visits exactly as many entries as the query matches |
| CronService.Incremented | backend/services/cronService.js:33-40 | The midnight increment touches exactly the stored pools and adds none |
| CronService.IncrementedSpec | backend/services/cronService.js:33-40 | flush_shine rises by exactly 250 and last_call by exactly 50, whatever `dailyIncrement` says; no pool decreases; nothing else changes |
| CronService.IncrementJackpots | backend/services/cronService.js:31-45 | The midnight job replaces the jackpots by their incremented versions and leaves the cards |
| CronService.ResetSpec | backend/services/cronService.js:50-61 | A session's reset keeps exactly the other session's cards and that session's completed cards |
| CronService.ResetUnfinished | backend/services/cronService.js:50-61 | The job deletes exactly the unfinished cards of the session and keeps the jackpots |
| CronService.ResetFlushShine | backend/services/cronService.js:48-56 | The 20:00 job deletes exactly the unfinished flush_shine cards |
| CronService.ResetLastCall | backend/services/cronService.js:59-67 | The 02:00 job deletes exactly the unfinished last_call cards |
| Waitlist.MaxQueuePositionSpec | backend/routes/waitlist.js:51-54 | The lookup finds the largest position among the game's waiting and called entries, and finds nothing only for an empty queue |
| Waitlist.NextPositionSpec | backend/routes/waitlist.js:50-56 | A new entry goes one past the last queued position of its game, or to 1 in an empty queue |
| Waitlist.JoinsNumberConsecutively | backend/routes/waitlist.js:50-66 | After a join, the next join to the same game gets the following position |
| Waitlist.JoinsFromEmptyQueue | backend/routes/waitlist.js:50-66 | Joins to a game whose queue starts empty are numbered 1, 2, 3, ... |
| Waitlist.RenumberCandidatesSpec | backend/routes/waitlist.js:145-149 | The renumbered entries are exactly the game's waiting entries above the seated position, each once, by ascending position |
| Waitlist.CandidatesInRange | backend/routes/waitlist.js:145-149 | Every candidate index is a stored entry |
| Waitlist.CandidatesMembership | backend/routes/waitlist.js:145-149 | An index is a candidate exactly when its entry is a waiting entry of the game behind the seated position |
| Waitlist.RenumberFrom | backend/routes/waitlist.js:151-154 | The loop keeps the ledger's length |
| Waitlist.RenumberFromSpec | backend/routes/waitlist.js:151-154 | The k-th candidate receives position p + k and every other entry is untouched |
| Waitlist.SeatEntrySpec | backend/routes/waitlist.js:132-154 | The entry becomes seated at now. The k-th waiting entry behind it moves to p + k, keeping relative order. Called entries, other games and entries at or below p are unchanged |
| Waitlist.CalledEntryCanSharePosition | backend/routes/waitlist.js:145-154 | A concrete ledger where seating leaves a called entry and a renumbered waiting entry on the same position |
| Waitlist.CollisionSorted | backend/routes/waitlist.js:145-154 | The example queue is in ascending position |
| Waitlist.CollisionBehind | backend/routes/waitlist.js:145-149 | In the example only the last entry is renumbered |
| Waitlist.GroupByGameSpec | backend/routes/waitlist.js:17-23 | There is a group for exactly the games that occur, and each group is that game's sub-sequence in order |
| Waitlist.ListingSpec | backend/routes/waitlist.js:10-25 | The groups hold exactly the waiting and called entries, each group by ascending position |
| Waitlist.FilterKeepsSorted | backend/routes/waitlist.js:12-23 | Filtering a position-sorted list keeps it sorted |
| Waitlist.WaitlistLedger.constructor | backend/models/Waitlist.js:4-20 | The ledger starts empty |
| Waitlist.WaitlistLedger.List | backend/routes/waitlist.js:10-25 | Returns the grouping of the sorted waiting and called entries, and `total_count` is their number |
| Waitlist.WaitlistLedger.GameQueue | backend/routes/waitlist.js:32-43 | Returns exactly the game's waiting and called entries, as often as stored, by ascending position |
| Waitlist.WaitlistLedger.PlayerEntries | backend/routes/waitlist.js:200-210 | Returns exactly the waiting and called entries carrying the card number |
| Waitlist.WaitlistLedger.Join | backend/routes/waitlist.js:46-66 | Appends exactly one waiting entry at the next position of its game. `numPlayers` defaults to 1 and `plannedBuyin` to 300 when absent or falsy. A missing required field changes nothing |
| Waitlist.WaitlistLedger.Call | backend/routes/waitlist.js:87-100 | Missing id: 404, nothing changes. Otherwise the entry becomes called, whatever its status, with `calledAt` = now and `expiresAt` = now + 1,800,000 ms; nothing else changes |
| Waitlist.WaitlistLedger.Seat | backend/routes/waitlist.js:123-154 | Missing id: 404, nothing changes. Otherwise the ledger becomes the seat-and-renumber result, and the renumbered ids are reported in order |
| Waitlist.WaitlistLedger.Remove | backend/routes/waitlist.js:169-178 | Missing id: 404. Otherwise only that entry becomes removed at now; no entry is renumbered |
| Tables.ListingSpec | backend/routes/tables.js:10-25 | One view per table whose status is not closed. Its seats are exactly that table's seats. `occupied_count` is their number and `available_seats` is `maxSeats` minus it, which may go negative |
| Tables.TableDetails | backend/routes/tables.js:32-46 | 404 exactly when no table of any status has the number; otherwise that table with its occupancy |
| Tables.OccupancyAfterSeating | backend/routes/tables.js:145-153 | A new seat raises its table's occupancy by one and no other table's |
| Tables.ClosedTableIsEmpty | backend/routes/tables.js:106 | After the delete no seat of the table is left, and other tables keep their occupancy |
| Tables.OtherTablesKept | backend/routes/tables.js:106 | Deleting one table's seats keeps another table's seats exactly |
| Tables.TableFloor.constructor | backend/models/Table.js:4 | The floor starts with no tables and no seats |
| Tables.TableFloor.OpenTable | backend/routes/tables.js:58-74 | An open table with the number gives 400 and nothing changes. A closed or reserved one makes the create fail on the unique index. Otherwise one open table is added, with capacity or 9 and the game's name and stakes or the defaults |
| Tables.TableFloor.CloseTable | backend/routes/tables.js:98-106 | The numbered table, if any, becomes closed at now, and every seat at that number is deleted; other seats stay |
| Tables.TableFloor.SeatPlayer | backend/routes/tables.js:130-153 | No table of that number: 404. An occupied spot: 400. Either way nothing is written. Otherwise exactly one seat is added, never a second one for the same spot, and neither `maxSeats` nor status is checked |
| Tables.TableFloor.Vacate | backend/routes/tables.js:175-189 | The seat at the spot, if any, is deleted and all other seats stay; it always succeeds |
| Tables.NewTable | backend/routes/tables.js:63-74 | The new table is open, has capacity 9 unless a non-zero capacity is given, and takes "Unknown" and "$1/$3" when the game or its field is missing |
| PlayerModel.Name | backend/models/Player.js:19-21 | The display name is the first name, one space and the initial |
| PlayerModel.BeforeSpace | backend/models/Player.js:19-21 | The part before the first space is a prefix of the text and has no space; the text continues with a space after it when it is cut short |
| PlayerModel.NameSplitsBack | backend/models/Player.js:19-21 | With no space in the first name, the name splits back into the first name and the initial |
| PlayerModel.Last4 | backend/models/Player.js:31-33 | `slice(-4)` is the last four characters, or all of a shorter phone |
| PlayerModel.PreSave | backend/models/Player.js:24-35 | Unmodified `pinHash`: nothing changes. Otherwise a value of at most 6 characters is replaced by its hash. A non-empty phone sets `phoneLast4` to its last four characters. No other field changes |
| PlayerModel.PreSaveTwice | backend/models/Player.js:24-35 | Saving twice equals saving once, because a stored hash is not hashed again |
| Players.LatestOpenCheckin | backend/routes/players.js:112-115 | Picks an open check-in of the player with the latest start, and finds none only when the player has no open check-in |
| Players.CashTypeMatchesPoints | backend/routes/players.js:141 | A paid session is `cash_daily` exactly when it earned the daily amount, that is from six hours on |
| Players.PlayerRegistry.constructor | backend/models/PlayerCheckin.js:3-14 | The registry starts with the given players and no check-ins or transactions |
| Players.PlayerRegistry.CheckIn | backend/routes/players.js:84-93 | 404 exactly for an unknown player. Otherwise one new open check-in is appended, even beside an open one |
| Players.PlayerRegistry.CheckOut | backend/routes/players.js:112-145 | No open check-in: 400, nothing changes. Otherwise the latest open one is closed with the points for the elapsed time. Only a positive amount is added to the player and recorded as one cash transaction of the right type |
| Points.ByPointsSpec | backend/routes/points.js:11-12 | The query holds each player with positive points exactly once, in non-increasing points order |
| Points.Ranked | backend/routes/points.js:11-13 | The limited query has at most `limit` ids, all of stored players |
| Points.TakeOfSorted | backend/routes/points.js:11-13 | Cutting a sorted query at the limit gives a ranking |
| Points.RankedSpec | backend/routes/points.js:11-13 | The limited query is a ranking: distinct positive players, non-increasing points, and a positive player is left out only when the list is full and does not beat any listed player |
| Points.Entry | backend/routes/points.js:15-21 | A row shows the player's id, card number, name and points under the given rank |
| Points.Board | backend/routes/points.js:11-21 | The leaderboard has at most 100 rows |
| Points.Ids | backend/routes/points.js:15-21 | The row ids are the rows' player ids, in order |
| Points.BoardIds | backend/routes/points.js:11-21 | The rows list exactly the ranked ids |
| Points.BoardSpec | backend/routes/points.js:11-21 | At most 100 rows ranked 1, 2, ... Each is a different player with positive points and their card, name and points. Points never increase down the board. A missing positive player means a full board and does not outrank anyone listed |
| Points.CutoffSpec | backend/routes/points.js:30 | The cutoff is the 30th row's points with 30 rows, 0 otherwise, positive exactly with 30 rows, and reached by every one of the top 30 |
| Points.Top30 | backend/routes/points.js:40-45 | The count is at most 30 and the cutoff is positive exactly when it is 30 |
| Points.Top30AgreesWithBoard | backend/routes/points.js:40-45 | /top30's cutoff equals the leaderboard's, and its count is the number of the leaderboard's first 30 rows |
| Points.WriteRanks | backend/routes/points.js:24-26 | Writing ranks keeps the number of players |
| Points.WriteRanksSpec | backend/routes/points.js:24-26 | Each listed player gets its row's rank, every unlisted player is unchanged, and only `rank` changes |
| Points.RanksStoredSpec | backend/routes/points.js:24-26 | After the leaderboard, the k-th listed player's stored rank is k + 1 and nothing else changed |
| Points.Leaderboard | backend/routes/points.js:9-31 | Returns the board and the cutoff computed from the old players, and the loop leaves the players with the board's ranks written |
| Points.NewTotal | backend/routes/points.js:85-88 | `new_total` is the stored total when the player exists and has a non-zero total, otherwise the awarded amount |
| Points.NewTotalAfterAward | backend/routes/points.js:64-88 | After the award, `new_total` is the player's new total, or the awarded amount when that total is 0 |
| Points.Award | backend/routes/points.js:56-69 | The player, if present, gains exactly the amount. One bonus transaction is recorded either way, with the player's name when present |
| RateLimiter.AfterCheck | backend/middleware/rateLimiter.js:10-19 | The check deletes only this address's passed expiry, touches no other address, and does not change whether it is blocked |
| RateLimiter.AfterFailure | backend/middleware/rateLimiter.js:28-33 | After a failure the list ends with now, keeps only times within 15 minutes, and keeps every such time |
| RateLimiter.AfterFailureKeepsRecent | backend/middleware/rateLimiter.js:31-32 | When every kept time is within the window, the failure only appends now |
| RateLimiter.ReplayWithinWindow | backend/middleware/rateLimiter.js:27-33 | Failures packed into one window are all remembered |
| RateLimiter.WindowPrefix | backend/middleware/rateLimiter.js:27-33 | A prefix of a one-window history is a one-window history |
| RateLimiter.LastFailureKeepsWindow | backend/middleware/rateLimiter.js:27-33 | The last failure of a one-window history keeps all earlier ones |
| RateLimiter.LoginLimiter.constructor | backend/middleware/rateLimiter.js:2-3 | The throttle starts with no attempts and no blocks |
| RateLimiter.LoginLimiter.IsBlocked | backend/middleware/rateLimiter.js:10-19 | True exactly while a stored non-zero expiry lies ahead. An expiry that has passed is deleted. Attempts are untouched |
| RateLimiter.LoginLimiter.RecordAttempt | backend/middleware/rateLimiter.js:21-41 | A success deletes the address's attempts, returns false and keeps blocks. A failure stores the kept list, and returns true with a 15-minute block exactly when the list then holds 5 or more |
| RateLimiter.LoginLimiter.Gate | backend/middleware/rateLimiter.js:44-56 | The request passes exactly when the address is not blocked; otherwise 429 |
| RateLimiter.SuccessResetsWindow | backend/middleware/rateLimiter.js:22-33 | After a success the next failure leaves exactly one failure on record |
| RateLimiter.OtherAddressesUntouched | backend/middleware/rateLimiter.js:10-41 | No operation on one address changes another address's attempts or block |
| RateLimiter.BlockLasts | backend/middleware/rateLimiter.js:10-37 | A block set at now holds until now + 15 minutes and not at that instant |
| RateLimiter.FifthFailureBlocks | backend/middleware/rateLimiter.js:27-38 | Within one window the fifth failure blocks and four never do |
| RateLimiter.ReplayRecent | backend/middleware/rateLimiter.js:27-33 | Only the last window's failures are remembered, and never more than were made |
| Auth.PlayerLogin | backend/routes/auth.js:19-46 | Blocked: 429 with no change. Unknown card: a failure recorded and 401, even when it sets the block. Wrong credential: a failure, then 429 if it set the block, else 401. Phone method compares `phoneLast4`. Success clears the address's failures |
| Auth.StaffLogin | backend/routes/auth.js:133-147 | The user name is looked up lower-cased. Unknown users and wrong passwords get the same failure: 429 if it set the block, else 401. Success clears the address's failures |
| Auth.StaffLookupIgnoresCase | backend/routes/auth.js:137 | Upper-casing the name first finds the same account |
| Auth.SavedPlayerPhoneLogin | backend/routes/auth.js:30-32 | A saved player with a phone logs in by phone with exactly its last four characters |
| Auth.NewPlayer | backend/routes/auth.js:94-101 | The created player has the card, the upper-cased initial, zero points and no rank, its PIN hashed when short, and `phoneLast4` set |
| Auth.Register | backend/routes/auth.js:83-101 | A registered phone gives 400 and nothing changes. Otherwise the first free draw becomes the card number, with an error when no draw is free. A record failing the schema adds nothing. Otherwise exactly one player is appended, and card numbers stay unique |
| Orders.OrderNumberInjective | backend/routes/orders.js:33-34 | Different counts give different order numbers |
| Orders.ListingSpec | backend/routes/orders.js:11-20 | With a status, exactly the orders of that status; without one, exactly pending and preparing; each as often as stored, in ascending creation time |
| Orders.NumbersDistinct | backend/routes/orders.js:33-34 | The order at index i (from 0) is #(1001 + i) and no two orders share a number |
| Orders.OrderBook.constructor | backend/models/FoodOrder.js:3-20 | The book starts empty |
| Orders.OrderBook.Create | backend/routes/orders.js:33-42 | A valid order is appended pending with number #(count + 1001); an invalid one adds nothing |
| Orders.OrderBook.Start | backend/routes/orders.js:66-74 | Missing order: 404. Otherwise preparing from any status, stamped and attributed, nothing else changed |
| Orders.OrderBook.Complete | backend/routes/orders.js:98-106 | Missing order: 404. Otherwise delivered from any status and stamped, nothing else changed |
| Orders.OrderBook.Cancel | backend/routes/orders.js:124-128 | The order, if present, becomes cancelled and stamped; a missing one changes nothing and still succeeds |
| Tournaments.ActiveTournamentsSpec | backend/routes/tournaments.js:13 | The listing holds exactly the active tournaments |
| Tournaments.CountAfterAppend | backend/routes/tournaments.js:85-97 | A new registration raises its own tournament's count by one and no other's |
| Tournaments.Bumped | backend/routes/tournaments.js:95-97 | Only the registering tournament's counter changes, and it rises by exactly one |
| Tournaments.EnrolKeepsInvariant | backend/routes/tournaments.js:75-97 | Enrolling a new phone with the counter raised keeps every registration on a stored tournament and one per phone, and keeps counters equal to registrations when they were |
| Tournaments.TournamentDesk.constructor | backend/models/Tournament.js:3-15 | The desk starts empty |
| Tournaments.TournamentDesk.Details | backend/routes/tournaments.js:21-33 | 404 exactly for an unknown id; otherwise the tournament with exactly the registrations that reference it |
| Tournaments.TournamentDesk.Create | backend/routes/tournaments.js:42-50 | With name, date and time, one active tournament with count 0 is appended; otherwise nothing changes. A desk whose counters matched its registrations still does |
| Tournaments.TournamentDesk.Register | backend/routes/tournaments.js:67-97 | Unknown tournament: 404. Phone already registered there: 400. Both leave things unchanged. Otherwise exactly one registration is added and that tournament's count rises by one, whatever the count was. A desk whose counters matched its registrations still does |
| Activity.BuildQuery | backend/routes/activity.js:12-18 | A filter is set exactly when its parameter is present, non-empty and not "all", and then to that value |
| Activity.EffectiveLimit | backend/routes/activity.js:9-22 | The default limit is 50; 0 means no limit; any other value n limits to |n| |
| Activity.ListingSpec | backend/routes/activity.js:9-24 | Only stored entries matching the filters, no more often than stored, newest first, at most the limit. A match left out is no newer than any listed entry, and every match is listed when the list is under the limit |
| Activity.ExportedEntriesSpec | backend/routes/activity.js:33-34 | The export reads only stored entries, no more often than stored, newest first, at most 500, and all of them when there are no more than 500 |
| Activity.ExportedEntriesNewest | backend/routes/activity.js:33-34 | An entry left out of the export is no newer than any exported one |
| Activity.AppendLines | backend/routes/activity.js:35-38 | The `forEach` loop leaves the header followed by one line per entry, in order |
| Activity.ExportCsv | backend/routes/activity.js:33-38 | The export is the header followed by one line for each exported entry, in order |
| Activity.CsvLineBreaks | backend/routes/activity.js:37 | A line whose fields hold no line break has exactly one, at its end |
| Activity.CsvLinesBreaks | backend/routes/activity.js:36-38 | The lines of n such entries hold exactly n line breaks |
| Activity.ExportSpec | backend/routes/activity.js:33-38 | The export starts with the header, ends with a line break and covers at most 500 entries. With single-line fields it has exactly 1 + n lines |
| Seqs.SortByStable | backend/routes/points.js:11-12 | The sort is stable: the elements sharing a key keep their stored order, which is how the model breaks the store's ties |
| Displays.LiveStatusOf | backend/server.js:64-81 | Open tables counted. Seated = Σ occupancy over open tables. Free = Σ capacity − seated. Waitlist count = waiting + called entries. Wait estimate = 4 × that count |
| Displays.SeatedAtOpenTables | backend/server.js:68-72 | With unique table numbers, the seated total is the number of seats at open tables, so at most the number of seats |
| Displays.SeatsAvailableIsFreeSeats | backend/server.js:68-77 | Free seats are Σ(capacity − occupancy) over open tables, and are never negative when no open table is over-seated |
| Displays.SeatsOpen | backend/server.js:108-111 | The inner loop adds up capacity less occupancy over the game's tables |
| Displays.DisplayWaitlist | backend/server.js:100-119 | One panel per active game, in stored order, each the panel the handler builds for that game |
| Displays.ActiveGamesSpec | backend/server.js:100 | The panels are for exactly the active games, each with its own id |
| Displays.GameRowSpec | backend/server.js:104-118 | A panel counts the game's open tables and gives their free seats. It lists at most 10 waiting/called entries of the game by ascending position, all of them when there are no more than 10. `waitlist_count` is the cut list's length |
| Displays.LeadersSpec | backend/server.js:141-145 | At most 12 leaders, each a stored card with 1-4 badges, of any session or date, scored "k/4", by non-increasing count; every such card appears when fewer than 12 are shown |
| Displays.LeaderRowsMembers | backend/server.js:141-144 | Each row comes from a stored card holding a badge |
| Displays.LeaderRowsComplete | backend/server.js:141-144 | Each stored card holding a badge has its row |
| Displays.JackpotAmountsSpec | backend/server.js:148 | The map has a key exactly for each session type on record, holding the amount of its last record |
| Displays.UniqueJackpotsShown | backend/server.js:148 | With unique session types, every jackpot's amount is shown under its own type |

## Left out

- HTTP routing, authentication middleware, JWT tokens, socket.io notifications, static files and start-up are not modelled. bcrypt comparisons are boolean inputs, and the hash of a new PIN is a string input.
- Activity-log writes made by the other handlers, and console logging, are not modelled. These are append-only side records that no business rule reads.
- MongoDB is replaced by sequences or maps. Unique indexes (table number, seat spot, card number, jackpot session type) are class invariants, or requirements of the lemmas that need them. The one index violation a handler can reach (opening a number stored as closed or reserved) is an error outcome.
- Concurrency is not modelled. Each handler is one sequential step, so the read-then-create races are not represented.
- Ties in MongoDB sorts are broken by stored order, through a stable sort (`Seqs.SortByStable`). The store does not promise any tie order.
- `Math.round` of fractional hours (hoursPlayed, totalMinutes and the description text) is not modelled. Those values are for display only; the points use the exact hours.
- `Math.random` draws (card numbers, confirmation codes) are parameters. The registration loop runs over a finite list of draws instead of retrying forever.
- Auth.Register: the unbounded retry is a finite list of draws. Running out of draws is an error outcome the source cannot reach.
- Auth.PlayerLogin: `recordAttempt` reads the clock again in the source. The model uses the gate's `now` for both.
- Tournaments.TournamentDesk.Register: a request without a phone (the query then matches any registration) is not modelled. The phone is a string.
- Activity.EffectiveLimit: a `limit` that `parseInt` turns into NaN is not modelled. The parsed limit is an integer or absent.
- Activity.ExportCsv: `toISOString` is a function parameter. Its output format is not modelled.
- GET /api/flush/jackpots returns the stored records unchanged, and GET /api/health only reports the time. Neither has a rule to model.
- Displays.DisplayFlush has no contract of its own. It combines the jackpot map, the running session and the leaders, which `Displays.JackpotAmountsSpec`, `CalculatePoints.CurrentFlushSession` and `Displays.LeadersSpec` describe. The session date it reads is unused.
- Seeds, configuration lookups and the games routes are not modelled.
- Auth.StaffLogin: user names are lower-cased with the ASCII mapping only. The source's `toLowerCase` maps all of Unicode, so non-ASCII letters differ.
- Auth.NewPlayer: the last initial is upper-cased with the ASCII mapping only. In the source `"ß".toUpperCase()` is `"SS"`, which then fails the one-character limit, while the model registers it.
- Auth.StaffLookupIgnoresCase: proved for the ASCII mapping. It does not hold for the source's Unicode mapping on names such as "straße".
- Flush.FlushTracker.AwardSuit: a suit name that names another field of the card (such as `playerName`) would overwrite that field before the 500. The model treats such a name like any unknown suit.
