/**
 * The waitlist ledger (backend/routes/waitlist.js): joining a game's queue,
 * calling, seating (with the renumbering of the waiting entries behind the
 * seated one) and removing entries, and the read-only listings.
 *
 * Entries are never deleted, so an entry's id is its index in `entries`.
 * The route handlers are modelled as written: `call` accepts an entry in any
 * status, and neither `remove` nor the expiry sweep renumbers positions.
 */
module Waitlist {
  import opened Wrappers
  import opened Models
  import Seqs

  /** A called player's entry expires 30 minutes after the call. */
  const CallWindowMs: int := 30 * 60 * 1000

  const DefaultNumPlayers: int := 1
  const DefaultPlannedBuyin: int := 300

  /** Response of a handler that looks an entry up by id. */
  datatype Outcome = Done | NotFound

  /** Response of `join`: the new entry's id, or a failed schema validation. */
  datatype JoinOutcome = Joined(id: nat) | InvalidEntry

  /** The facts every stored entry satisfies. */
  predicate WellFormed(e: WaitlistEntry) {
    && e.position >= 1
    && (e.status == Called ==> e.calledAt.Some? && e.expiresAt.Some?)
    && (e.status == Seated ==> e.seatedAt.Some?)
    && (e.status == Removed ==> e.removedAt.Some?)
  }

  function ByPosition(e: WaitlistEntry): int {
    e.position
  }

  /** The filter `{ gameId: g, status: { $in: ['waiting', 'called'] } }`. */
  function InQueueOf(g: string): WaitlistEntry -> bool {
    (e: WaitlistEntry) => IsActive(e) && e.gameId == g
  }

  function InGame(g: string): WaitlistEntry -> bool {
    (e: WaitlistEntry) => e.gameId == g
  }

  /** The largest position among game `g`'s waiting or called entries, if it has any (the `sort({ position: -1 })` lookup). */
  function MaxQueuePosition(es: seq<WaitlistEntry>, g: string): Option<int>
    decreases |es|
  {
    if es == [] then None
    else
      var m := MaxQueuePosition(es[..|es| - 1], g);
      var last := es[|es| - 1];
      if !(IsActive(last) && last.gameId == g) then m
      else if m.Some? && m.value >= last.position then m
      else Some(last.position)
  }

  /** The result is the position of some queued entry of `g` that no other queued entry of `g` exceeds, and None only for an empty queue. */
  lemma {:induction false} MaxQueuePositionSpec(es: seq<WaitlistEntry>, g: string)
    ensures MaxQueuePosition(es, g).None? <==> forall e :: e in es ==> !(IsActive(e) && e.gameId == g)
    ensures MaxQueuePosition(es, g).Some? ==>
      exists e :: e in es && IsActive(e) && e.gameId == g && e.position == MaxQueuePosition(es, g).value
    ensures MaxQueuePosition(es, g).Some? ==>
      forall e :: e in es && IsActive(e) && e.gameId == g ==> e.position <= MaxQueuePosition(es, g).value
    decreases |es|
  {
    if es != [] {
      var init, last := es[..|es| - 1], es[|es| - 1];
      assert es == init + [last];
      MaxQueuePositionSpec(init, g);
    }
  }

  /** The position a new entry of game `g` receives: one past the last one, or 1 for an empty queue. */
  function NextPosition(es: seq<WaitlistEntry>, g: string): int {
    var m := MaxQueuePosition(es, g);
    if m.Some? then m.value + 1 else 1
  }

  /** A new entry goes behind every queued entry of its game, directly after the last one, or first into an empty queue. */
  lemma NextPositionSpec(es: seq<WaitlistEntry>, g: string)
    ensures (forall e :: e in es ==> !(IsActive(e) && e.gameId == g)) ==> NextPosition(es, g) == 1
    ensures forall e :: e in es && IsActive(e) && e.gameId == g ==> e.position < NextPosition(es, g)
    ensures NextPosition(es, g) != 1 ==>
      exists e :: e in es && IsActive(e) && e.gameId == g && e.position == NextPosition(es, g) - 1
  {
    MaxQueuePositionSpec(es, g);
  }

  /** After a join, the next join to the same game gets the following position. */
  lemma JoinsNumberConsecutively(es: seq<WaitlistEntry>, e: WaitlistEntry)
    requires IsActive(e) && e.position == NextPosition(es, e.gameId)
    ensures NextPosition(es + [e], e.gameId) == e.position + 1
  {
    var g := e.gameId;
    var es' := es + [e];
    NextPositionSpec(es, g);
    MaxQueuePositionSpec(es', g);
    assert e in es';
    forall x | x in es' && IsActive(x) && x.gameId == g ensures x.position <= e.position {
      if x != e { assert x in es; }
    }
  }

  /** `joined` are entries of game `g` appended one by one to `es`, each at the position `join` computed for it. */
  predicate JoinedInOrder(es: seq<WaitlistEntry>, joined: seq<WaitlistEntry>, g: string)
    decreases |joined|
  {
    joined == [] ||
    var init, last := joined[..|joined| - 1], joined[|joined| - 1];
    && JoinedInOrder(es, init, g)
    && IsActive(last) && last.gameId == g
    && last.position == NextPosition(es + init, g)
  }

  /** Joins to a game whose queue starts empty number their entries 1, 2, 3, ... */
  lemma {:induction false} JoinsFromEmptyQueue(es: seq<WaitlistEntry>, joined: seq<WaitlistEntry>, g: string)
    requires forall e :: e in es ==> !(IsActive(e) && e.gameId == g)
    requires JoinedInOrder(es, joined, g)
    ensures forall k :: 0 <= k < |joined| ==> joined[k].position == k + 1
    ensures NextPosition(es + joined, g) == |joined| + 1
    decreases |joined|
  {
    if joined == [] {
      assert es + joined == es;
      NextPositionSpec(es, g);
    } else {
      var n := |joined| - 1;
      var init, last := joined[..n], joined[n];
      JoinsFromEmptyQueue(es, init, g);
      assert es + joined == (es + init) + [last];
      JoinsNumberConsecutively(es + init, last);
    }
  }

  /** The waiting entries of game `g` behind position `p`, as indices ordered by position (the seat handler's `remaining`). */
  function RenumberCandidates(es: seq<WaitlistEntry>, g: string, p: int): seq<nat> {
    Seqs.SortBy(Seqs.Filter(Seqs.Indices(|es|), IsBehind(es, g, p)), PositionAt(es))
  }

  function IsBehind(es: seq<WaitlistEntry>, g: string, p: int): nat -> bool {
    (j: nat) => j < |es| && es[j].gameId == g && es[j].status == Waiting && es[j].position > p
  }

  function PositionAt(es: seq<WaitlistEntry>): nat -> int {
    (j: nat) => if j < |es| then es[j].position else 0
  }

  /** The candidates are exactly the waiting entries of `g` with a position above `p`, each once, in ascending position. */
  lemma RenumberCandidatesSpec(es: seq<WaitlistEntry>, g: string, p: int)
    ensures forall j: nat :: j in RenumberCandidates(es, g, p) <==>
      j < |es| && es[j].gameId == g && es[j].status == Waiting && es[j].position > p
    ensures Seqs.Distinct(RenumberCandidates(es, g, p))
    ensures forall k :: 0 <= k < |RenumberCandidates(es, g, p)| ==> RenumberCandidates(es, g, p)[k] < |es|
    ensures forall k1, k2 :: 0 <= k1 < k2 < |RenumberCandidates(es, g, p)| ==>
      es[RenumberCandidates(es, g, p)[k1]].position <= es[RenumberCandidates(es, g, p)[k2]].position
  {
    var c := RenumberCandidates(es, g, p);
    CandidatesMembership(es, g, p);
    CandidatesInRange(es, g, p);
    forall k1, k2 | 0 <= k1 < k2 < |c|
      ensures es[c[k1]].position <= es[c[k2]].position
    {
      assert PositionAt(es)(c[k1]) <= PositionAt(es)(c[k2]);
    }
  }

  lemma CandidatesInRange(es: seq<WaitlistEntry>, g: string, p: int)
    ensures forall k :: 0 <= k < |RenumberCandidates(es, g, p)| ==> RenumberCandidates(es, g, p)[k] < |es|
  {
    var c := RenumberCandidates(es, g, p);
    CandidatesMembership(es, g, p);
    forall k | 0 <= k < |c| ensures c[k] < |es| {
      assert c[k] in c;
    }
  }

  lemma CandidatesMembership(es: seq<WaitlistEntry>, g: string, p: int)
    ensures forall j: nat :: j in RenumberCandidates(es, g, p) <==> IsBehind(es, g, p)(j)
    ensures Seqs.Distinct(RenumberCandidates(es, g, p))
  {
    var f := Seqs.Filter(Seqs.Indices(|es|), IsBehind(es, g, p));
    var c := RenumberCandidates(es, g, p);
    Seqs.FilterIndices(|es|, IsBehind(es, g, p));
    Seqs.SortByDistinct(f, PositionAt(es));
    var mc: multiset<nat>, mf: multiset<nat> := multiset(c), multiset(f);
    assert mc == mf;
    forall j: nat ensures j in c <==> j in f {
      assert j in c <==> mc[j] > 0;
      assert j in f <==> mf[j] > 0;
    }
  }

  /** Four entries of one game; seating the first moves the last onto the called entry's position. */
  function CollisionExample(): seq<WaitlistEntry> {
    var e := WaitlistEntry(None, "", "", None, "g", 1, 1, 300, Waiting, 0, None, None, None, None, None);
    [e, e.(position := 2, status := Called, calledAt := Some(0), expiresAt := Some(CallWindowMs)),
     e.(position := 3), e.(position := 4)]
  }

  /**
   * Seating entry 0 (position 1) renumbers entries 2 and 3 to positions 1 and 2,
   * while the called entry 1 keeps position 2: two active entries then share it.
   */
  lemma CalledEntryCanSharePosition()
    ensures RenumberCandidates(CollisionExample(), "g", 1) == [2, 3]
    ensures CollisionExample()[1].status == Called && CollisionExample()[1].position == 1 + 1
  {
    CollisionBehind();
    CollisionSorted();
  }

  const CollidingIndices: seq<nat> := [2, 3]

  lemma CollisionSorted()
    ensures Seqs.SortBy(CollidingIndices, PositionAt(CollisionExample())) == CollidingIndices
  {
    var key := PositionAt(CollisionExample());
    var both: seq<nat>, last: seq<nat>, none: seq<nat> := [2, 3], [3], [];
    assert both[1..] == last && last[1..] == none;
    assert Seqs.SortBy(last, key) == last;
    assert key(2) <= key(3);
    assert Seqs.Insert(2, last, key) == both;
  }

  lemma CollisionBehind()
    ensures Seqs.Filter(Seqs.Indices(4), IsBehind(CollisionExample(), "g", 1)) == [2, 3]
  {
    var q := IsBehind(CollisionExample(), "g", 1);
    assert !q(0) && !q(1) && q(2) && q(3);
    var s4: seq<nat>, s3: seq<nat>, s2: seq<nat>, s1: seq<nat>, s0: seq<nat> := [0, 1, 2, 3], [0, 1, 2], [0, 1], [0], [];
    assert Seqs.Indices(4) == s4;
    assert s4[..3] == s3 && s3[..2] == s2 && s2[..1] == s1 && s1[..0] == s0;
    assert Seqs.Filter(s1, q) == [];
    assert Seqs.Filter(s2, q) == [];
    assert Seqs.Filter(s3, q) == [2];
  }

  /** The `forEach` grouping: appends each entry, in order, to the group of its game. */
  function GroupByGame(s: seq<WaitlistEntry>): map<string, seq<WaitlistEntry>>
    decreases |s|
  {
    if s == [] then map[]
    else
      var m := GroupByGame(s[..|s| - 1]);
      var e := s[|s| - 1];
      m[e.gameId := (if e.gameId in m then m[e.gameId] else []) + [e]]
  }

  /** There is a group for exactly the games that occur, and each group is the sub-sequence of that game's entries. */
  lemma {:induction false} GroupByGameSpec(s: seq<WaitlistEntry>)
    ensures GroupByGame(s).Keys == set e | e in s :: e.gameId
    ensures forall g :: g in GroupByGame(s) ==> GroupByGame(s)[g] == Seqs.Filter(s, InGame(g))
    decreases |s|
  {
    if s != [] {
      var init, e := s[..|s| - 1], s[|s| - 1];
      assert s == init + [e];
      GroupByGameSpec(init);
      var m := GroupByGame(init);
      forall g | g in GroupByGame(s) ensures GroupByGame(s)[g] == Seqs.Filter(s, InGame(g)) {
        if g != e.gameId {
          assert g in m;
        } else if g !in m {
          Seqs.FilterNone(init, InGame(g));
        }
      }
    }
  }

  /** The listing: one group per game with a waiting or called entry, holding exactly those entries, sorted by position. */
  lemma ListingSpec(es: seq<WaitlistEntry>)
    ensures GroupByGame(Seqs.SortBy(Seqs.Filter(es, IsActive), ByPosition)).Keys ==
      set e | e in es && IsActive(e) :: e.gameId
    ensures forall g, e :: g in GroupByGame(Seqs.SortBy(Seqs.Filter(es, IsActive), ByPosition)) ==>
      (e in GroupByGame(Seqs.SortBy(Seqs.Filter(es, IsActive), ByPosition))[g] <==> e in es && IsActive(e) && e.gameId == g)
    ensures forall g :: g in GroupByGame(Seqs.SortBy(Seqs.Filter(es, IsActive), ByPosition)) ==>
      Seqs.SortedBy(GroupByGame(Seqs.SortBy(Seqs.Filter(es, IsActive), ByPosition))[g], ByPosition)
  {
    var active := Seqs.Filter(es, IsActive);
    var sorted := Seqs.SortBy(active, ByPosition);
    GroupByGameSpec(sorted);
    forall x ensures x in sorted <==> x in active {
      assert x in sorted <==> multiset(sorted)[x] > 0;
      assert x in active <==> multiset(active)[x] > 0;
    }
    forall g | g in GroupByGame(sorted) ensures Seqs.SortedBy(GroupByGame(sorted)[g], ByPosition) {
      FilterKeepsSorted(sorted, InGame(g));
    }
  }

  /** Gives the k-th index of `c` the position `p + k`, one index after the other (the seat handler's renumbering loop). */
  function RenumberFrom(es: seq<WaitlistEntry>, c: seq<nat>, p: int): (r: seq<WaitlistEntry>)
    ensures |r| == |es|
    decreases |c|
  {
    if c == [] then es
    else
      var r := RenumberFrom(es, c[..|c| - 1], p);
      var j := c[|c| - 1];
      if j < |r| then r[j := r[j].(position := p + |c| - 1)] else r
  }

  /** Each listed index receives its own new position; every other entry is untouched. */
  lemma {:induction false} RenumberFromSpec(es: seq<WaitlistEntry>, c: seq<nat>, p: int)
    requires Seqs.Distinct(c)
    requires forall k :: 0 <= k < |c| ==> c[k] < |es|
    ensures forall k :: 0 <= k < |c| ==> RenumberFrom(es, c, p)[c[k]] == es[c[k]].(position := p + k)
    ensures forall j :: 0 <= j < |es| && j !in c ==> RenumberFrom(es, c, p)[j] == es[j]
    decreases |c|
  {
    if c != [] {
      var n := |c| - 1;
      var init := c[..n];
      assert forall k :: 0 <= k < n ==> init[k] == c[k];
      RenumberFromSpec(es, init, p);
      forall j | 0 <= j < |es| && j !in c ensures RenumberFrom(es, c, p)[j] == es[j] {
        assert j !in init;
      }
    }
  }

  /**
   * The whole effect of seating entry `id`: it becomes seated, and the
   * waiting entries of its game behind its position `p`, taken in ascending
   * position, receive `p`, `p + 1`, ...
   */
  function SeatEntry(es: seq<WaitlistEntry>, id: nat, now: Millis): (r: seq<WaitlistEntry>)
    requires id < |es|
  {
    var e := es[id];
    var seated := es[id := e.(status := Seated, seatedAt := Some(now))];
    // The seated entry itself is never a candidate (its position is not above its own),
    // so the candidates can be read before or after it is marked.
    RenumberFrom(seated, RenumberCandidates(es, e.gameId, e.position), e.position)
  }

  /**
   * Seating: the seated entry is marked with the time, the k-th candidate's
   * position becomes `p + k`, every other entry (called ones, other games,
   * positions at or before `p`) is unchanged, and well-formedness is kept.
   */
  lemma SeatEntrySpec(es: seq<WaitlistEntry>, id: nat, now: Millis)
    requires id < |es|
    ensures |SeatEntry(es, id, now)| == |es|
    ensures SeatEntry(es, id, now)[id] == es[id].(status := Seated, seatedAt := Some(now))
    ensures var c, p := RenumberCandidates(es, es[id].gameId, es[id].position), es[id].position;
      forall k :: 0 <= k < |c| ==> c[k] < |es| && SeatEntry(es, id, now)[c[k]] == es[c[k]].(position := p + k)
    ensures forall j :: 0 <= j < |es| && j != id && !IsBehind(es, es[id].gameId, es[id].position)(j) ==>
      SeatEntry(es, id, now)[j] == es[j]
    ensures (forall i :: 0 <= i < |es| ==> WellFormed(es[i])) ==>
      forall i :: 0 <= i < |es| ==> WellFormed(SeatEntry(es, id, now)[i])
  {
    var e := es[id];
    var p, g := e.position, e.gameId;
    var seated := es[id := e.(status := Seated, seatedAt := Some(now))];
    var c := RenumberCandidates(es, g, p);
    RenumberCandidatesSpec(es, g, p);
    RenumberFromSpec(seated, c, p);
    assert id !in c;
  }

  class WaitlistLedger {
    var entries: seq<WaitlistEntry>

    ghost predicate Valid()
      reads this
    {
      forall i :: 0 <= i < |entries| ==> WellFormed(entries[i])
    }

    constructor ()
      ensures Valid() && entries == []
    {
      entries := [];
    }

    /** GET /: the waiting and called entries grouped by game, each group in ascending position, and their number. */
    method List() returns (byGame: map<string, seq<WaitlistEntry>>, totalCount: nat)
      ensures byGame == GroupByGame(Seqs.SortBy(Seqs.Filter(entries, IsActive), ByPosition))
      ensures totalCount == |Seqs.Filter(entries, IsActive)|
    {
      var sorted := Seqs.SortBy(Seqs.Filter(entries, IsActive), ByPosition);
      byGame := map[];
      var i := 0;
      while i < |sorted|
        invariant 0 <= i <= |sorted|
        invariant byGame == GroupByGame(sorted[..i])
      {
        var e := sorted[i];
        assert sorted[..i + 1][..i] == sorted[..i];
        var prior := if e.gameId in byGame then byGame[e.gameId] else [];
        byGame := byGame[e.gameId := prior + [e]];
        i := i + 1;
      }
      assert sorted[..i] == sorted;
      totalCount := |sorted|;
    }

    /** GET /:gameId: game `g`'s waiting and called entries in ascending position. */
    method GameQueue(g: string) returns (r: seq<WaitlistEntry>)
      ensures Seqs.SortedBy(r, ByPosition)
      ensures multiset(r) == multiset(Seqs.Filter(entries, InQueueOf(g)))
      ensures forall e :: e in r <==> e in entries && IsActive(e) && e.gameId == g
    {
      var q := Seqs.Filter(entries, InQueueOf(g));
      r := Seqs.SortBy(q, ByPosition);
      forall x ensures x in r <==> x in q {
        assert x in r <==> multiset(r)[x] > 0;
        assert x in q <==> multiset(q)[x] > 0;
      }
    }

    /** GET /player/:cardNumber: the waiting and called entries carrying that card number. */
    method PlayerEntries(cardNumber: string) returns (r: seq<WaitlistEntry>)
      ensures r == Seqs.Filter(entries, HoldsCard(cardNumber))
      ensures forall e :: e in r <==> e in entries && IsActive(e) && e.cardNumber == Some(cardNumber)
    {
      r := Seqs.Filter(entries, HoldsCard(cardNumber));
    }

    /** POST /: appends one waiting entry at the next position of its game (the route links no player record). */
    method Join(playerName: string, phone: string, cardNumber: Option<string>,
                gameId: string, numPlayers: Option<int>, plannedBuyin: Option<int>, now: Millis)
      returns (out: JoinOutcome)
      requires Valid()
      modifies this
      ensures Valid()
      ensures playerName == "" || phone == "" || gameId == "" ==> out == InvalidEntry && entries == old(entries)
      ensures out.Joined? ==> out.id == old(|entries|) && |entries| == old(|entries|) + 1 && entries[..out.id] == old(entries)
      ensures out.Joined? ==> entries[out.id] == WaitlistEntry(
        None, playerName, phone, cardNumber, gameId, NextPosition(old(entries), gameId),
        OrDefault(numPlayers, DefaultNumPlayers), OrDefault(plannedBuyin, DefaultPlannedBuyin),
        Waiting, now, None, None, None, None, None)
      ensures out.InvalidEntry? <==> playerName == "" || phone == "" || gameId == ""
    {
      if playerName == "" || phone == "" || gameId == "" {
        // Schema validation: playerName, phone and gameId are required.
        return InvalidEntry;
      }
      NextPositionSpec(entries, gameId);
      var position := NextPosition(entries, gameId);
      var e := WaitlistEntry(None, playerName, phone, cardNumber, gameId, position,
        OrDefault(numPlayers, DefaultNumPlayers), OrDefault(plannedBuyin, DefaultPlannedBuyin),
        Waiting, now, None, None, None, None, None);
      out := Joined(|entries|);
      entries := entries + [e];
      assert entries[..out.id] == old(entries);
    }

    /** PUT /:id/call: marks the entry called, whatever its status, expiring 30 minutes from now. */
    method Call(id: nat, staff: StaffId, now: Millis) returns (out: Outcome)
      requires Valid()
      modifies this
      ensures Valid()
      ensures out == NotFound <==> id >= old(|entries|)
      ensures out == NotFound ==> entries == old(entries)
      ensures out == Done ==> entries == old(entries)[id := old(entries)[id].(
        status := Called, calledAt := Some(now), calledBy := Some(staff), expiresAt := Some(now + CallWindowMs))]
    {
      if id >= |entries| {
        return NotFound;
      }
      var e := entries[id];
      entries := entries[id := e.(status := Called, calledAt := Some(now), calledBy := Some(staff),
                                  expiresAt := Some(now + CallWindowMs))];
      out := Done;
    }

    /** PUT /:id/seat: the ledger becomes `SeatEntry` of the old one; `renumbered` are the entries moved, in order. */
    method Seat(id: nat, now: Millis) returns (out: Outcome, renumbered: seq<nat>)
      requires Valid()
      modifies this
      ensures Valid()
      ensures out == NotFound <==> id >= old(|entries|)
      ensures out == NotFound ==> entries == old(entries) && renumbered == []
      ensures out == Done ==> entries == SeatEntry(old(entries), id, now)
      ensures out == Done ==> renumbered == RenumberCandidates(old(entries), old(entries)[id].gameId, old(entries)[id].position)
    {
      if id >= |entries| {
        return NotFound, [];
      }
      var e := entries[id];
      var p, g := e.position, e.gameId;
      renumbered := RenumberCandidates(entries, g, p);
      CandidatesInRange(entries, g, p);
      var seated := entries[id := e.(status := Seated, seatedAt := Some(now))];
      var updated := seated;
      var i := 0;
      while i < |renumbered|
        invariant 0 <= i <= |renumbered|
        invariant updated == RenumberFrom(seated, renumbered[..i], p)
      {
        assert renumbered[..i + 1][..i] == renumbered[..i];
        var j := renumbered[i];
        updated := updated[j := updated[j].(position := p + i)];
        i := i + 1;
      }
      assert renumbered[..i] == renumbered;
      SeatEntrySpec(entries, id, now);
      entries := updated;
      out := Done;
    }

    /** DELETE /:id: marks the entry removed; no other entry is renumbered. */
    method Remove(id: nat, now: Millis) returns (out: Outcome)
      requires Valid()
      modifies this
      ensures Valid()
      ensures out == NotFound <==> id >= old(|entries|)
      ensures out == NotFound ==> entries == old(entries)
      ensures out == Done ==> entries == old(entries)[id := old(entries)[id].(status := Removed, removedAt := Some(now))]
    {
      if id >= |entries| {
        return NotFound;
      }
      entries := entries[id := entries[id].(status := Removed, removedAt := Some(now))];
      out := Done;
    }
  }

  /** The filter `{ cardNumber: c, status: { $in: ['waiting', 'called'] } }`. */
  function HoldsCard(c: string): WaitlistEntry -> bool {
    (e: WaitlistEntry) => IsActive(e) && e.cardNumber == Some(c)
  }

  /** A sub-sequence picked by a filter of a sorted sequence is sorted. */
  lemma {:induction false} FilterKeepsSorted(s: seq<WaitlistEntry>, p: WaitlistEntry -> bool)
    requires Seqs.SortedBy(s, ByPosition)
    ensures Seqs.SortedBy(Seqs.Filter(s, p), ByPosition)
    decreases |s|
  {
    if s != [] {
      var init, last := s[..|s| - 1], s[|s| - 1];
      FilterKeepsSorted(init, p);
      var f := Seqs.Filter(init, p);
      forall x | x in f ensures x.position <= last.position {
        var k :| 0 <= k < |init| && init[k] == x;
      }
    }
  }
}
