/**
 * Tournaments and their registrations (backend/routes/tournaments.js).
 * Neither collection is ever deleted from here, so ids are indices. The
 * confirmation code, drawn at random by the source, is a parameter.
 */
module Tournaments {
  import opened Wrappers
  import opened Models
  import Seqs

  datatype Tournament = Tournament(
    name: string,
    date: string,
    time: string,
    buyinAmount: Option<string>,
    rebuyAmount: Option<string>,
    addonAmount: Option<string>,
    guarantee: Option<string>,
    registeredCount: int,
    isActive: bool,
    createdAt: Millis)

  datatype RegistrationStatus = Registered | CheckedIn | Eliminated | Cashed

  datatype Registration = Registration(
    tournament: nat,
    playerName: string,
    phone: string,
    email: Option<string>,
    cardNumber: Option<string>,
    confirmation: string,
    registeredAt: Millis,
    status: RegistrationStatus)

  datatype CreateOutcome = Created(id: nat) | InvalidTournament
  datatype RegisterOutcome = Enrolled(registrationId: nat) | TournamentNotFound | AlreadyRegistered | InvalidRegistration

  function ForTournament(t: nat): Registration -> bool {
    (r: Registration) => r.tournament == t
  }

  function EntrantKey(r: Registration): (nat, string) {
    (r.tournament, r.phone)
  }

  function IsRunning(t: Tournament): bool {
    t.isActive
  }

  /** GET /: the active tournaments, in stored order. */
  function ActiveTournaments(ts: seq<Tournament>): seq<Tournament> {
    Seqs.Filter(ts, IsRunning)
  }

  /** The listing holds exactly the stored tournaments that are active. */
  lemma ActiveTournamentsSpec(ts: seq<Tournament>)
    ensures forall t :: t in ActiveTournaments(ts) <==> t in ts && t.isActive
    ensures |ActiveTournaments(ts)| <= |ts|
  {
  }

  /** Adding a registration raises the count of its own tournament by one and of no other. */
  lemma {:induction false} CountAfterAppend(rs: seq<Registration>, r: Registration, t: nat)
    ensures Seqs.Count(rs + [r], ForTournament(t)) == Seqs.Count(rs, ForTournament(t)) + (if r.tournament == t then 1 else 0)
  {
    assert (rs + [r])[..|rs|] == rs;
  }

  function HasEntrant(id: nat, phone: string): Registration -> bool {
    (r: Registration) => EntrantKey(r) == (id, phone)
  }

  /**
   * What every reachable desk keeps: each registration names a stored
   * tournament and no tournament has two registrations with the same phone.
   */
  predicate WellFormed(ts: seq<Tournament>, rs: seq<Registration>) {
    && (forall i :: 0 <= i < |rs| ==> rs[i].tournament < |ts|)
    && Seqs.DistinctBy(rs, EntrantKey)
  }

  /**
   * A desk whose counters also agree with its registrations. The counter is
   * only ever raised by one per registration, so a desk that starts
   * consistent stays so; seeded tournaments whose counts are set directly
   * need not be.
   */
  predicate Consistent(ts: seq<Tournament>, rs: seq<Registration>) {
    && WellFormed(ts, rs)
    && (forall t :: 0 <= t < |ts| ==> ts[t].registeredCount == Seqs.Count(rs, ForTournament(t)))
  }

  /** The tournaments with the counter of `id` raised by one (`$inc: { registeredCount: 1 }`). */
  function Bumped(ts: seq<Tournament>, id: nat): (r: seq<Tournament>)
    requires id < |ts|
    ensures |r| == |ts| && r[id].registeredCount == ts[id].registeredCount + 1
    ensures forall t :: 0 <= t < |ts| && t != id ==> r[t] == ts[t]
  {
    ts[id := ts[id].(registeredCount := ts[id].registeredCount + 1)]
  }

  /**
   * Enrolling a new phone in a stored tournament, with its counter raised by
   * one, keeps the desk well formed, and keeps the counters consistent when
   * they were.
   */
  lemma EnrolKeepsInvariant(ts: seq<Tournament>, rs: seq<Registration>, r: Registration)
    requires WellFormed(ts, rs) && r.tournament < |ts|
    requires forall i :: 0 <= i < |rs| ==> EntrantKey(rs[i]) != EntrantKey(r)
    ensures WellFormed(Bumped(ts, r.tournament), rs + [r])
    ensures Consistent(ts, rs) ==> Consistent(Bumped(ts, r.tournament), rs + [r])
  {
    Seqs.AppendDistinctBy(rs, EntrantKey, r);
    if Consistent(ts, rs) {
      forall t | 0 <= t < |ts| {
        CountAfterAppend(rs, r, t);
      }
    }
  }

  class TournamentDesk {
    var tournaments: seq<Tournament>
    var registrations: seq<Registration>

    /**
     * Each registration names a stored tournament and no tournament has two
     * registrations with the same phone. `registeredCount` is a counter of
     * its own and is not tied to the registrations.
     */
    ghost predicate Valid()
      reads this
    {
      WellFormed(tournaments, registrations)
    }

    constructor ()
      ensures Valid() && Consistent(tournaments, registrations) && tournaments == [] && registrations == []
    {
      tournaments := [];
      registrations := [];
    }

    /** GET /:id: 404 when missing, else the tournament with every registration that references it. */
    function Details(id: nat): (r: Option<(Tournament, seq<Registration>)>)
      reads this
      ensures r.None? <==> id >= |tournaments|
      ensures r.Some? ==> r.value.0 == tournaments[id]
      ensures r.Some? ==> forall g :: g in r.value.1 <==> g in registrations && g.tournament == id
    {
      if id >= |tournaments| then None else Some((tournaments[id], Seqs.Filter(registrations, ForTournament(id))))
    }

    /** POST /: a tournament with name, date and time starts active with no registrations. */
    method Create(name: string, date: string, time: string, buyin: Option<string>, rebuy: Option<string>,
                  addon: Option<string>, guarantee: Option<string>, now: Millis)
      returns (out: CreateOutcome)
      requires Valid()
      modifies this
      ensures Valid()
      ensures Consistent(old(tournaments), old(registrations)) ==> Consistent(tournaments, registrations)
      ensures registrations == old(registrations)
      ensures out == InvalidTournament <==> name == "" || date == "" || time == ""
      ensures out == InvalidTournament ==> tournaments == old(tournaments)
      ensures out.Created? ==> out.id == |old(tournaments)|
      ensures out.Created? ==>
        tournaments == old(tournaments) + [Tournament(name, date, time, buyin, rebuy, addon, guarantee, 0, true, now)]
    {
      if name == "" || date == "" || time == "" {
        return InvalidTournament;
      }
      var id := |tournaments|;
      Seqs.FilterNone(registrations, ForTournament(id));
      tournaments := tournaments + [Tournament(name, date, time, buyin, rebuy, addon, guarantee, 0, true, now)];
      out := Created(id);
    }

    /**
     * POST /:id/register: 404 for an unknown tournament, 400 when that phone
     * is already registered for it; otherwise one registration is added and
     * the tournament's count goes up by exactly one.
     */
    method Register(id: nat, playerName: string, phone: string, email: Option<string>, cardNumber: Option<string>,
                    confirmation: string, now: Millis)
      returns (out: RegisterOutcome)
      requires Valid()
      modifies this
      ensures Valid()
      ensures Consistent(old(tournaments), old(registrations)) ==> Consistent(tournaments, registrations)
      ensures out == TournamentNotFound <==> id >= |old(tournaments)|
      ensures out == AlreadyRegistered <==>
        id < |old(tournaments)| && exists i :: 0 <= i < |old(registrations)| && EntrantKey(old(registrations)[i]) == (id, phone)
      ensures !out.Enrolled? ==> tournaments == old(tournaments) && registrations == old(registrations)
      ensures out == InvalidRegistration ==> playerName == "" || phone == "" || confirmation == ""
      ensures out.Enrolled? ==> playerName != "" && phone != "" && confirmation != ""
      ensures out.Enrolled? ==>
        && out.registrationId == |old(registrations)|
        && registrations == old(registrations) + [Registration(id, playerName, phone, email, cardNumber, confirmation, now, Registered)]
        && tournaments == old(tournaments)[id := old(tournaments)[id].(registeredCount := old(tournaments)[id].registeredCount + 1)]
    {
      if id >= |tournaments| {
        return TournamentNotFound;
      }
      var rs, ts := registrations, tournaments;
      var existing := Seqs.FindFirst(rs, HasEntrant(id, phone));
      if existing.Some? {
        return AlreadyRegistered;
      }
      if playerName == "" || phone == "" || confirmation == "" {
        return InvalidRegistration;
      }
      var r := Registration(id, playerName, phone, email, cardNumber, confirmation, now, Registered);
      EnrolKeepsInvariant(ts, rs, r);
      registrations, tournaments := rs + [r], Bumped(ts, id);
      out := Enrolled(|rs|);
    }
  }
}
