/**
 * The login and registration decisions of backend/routes/auth.js. Each login
 * route first passes the throttle's gate; bcrypt comparisons arrive as
 * booleans, random card numbers as a finite list of draws, and the bcrypt
 * hash of a new PIN as a string. Tokens and activity entries are not
 * modelled.
 */
module Auth {
  import opened Wrappers
  import opened PlayerModel
  import opened RateLimiter
  import Players
  import Seqs
  import Text

  datatype StaffRole = Floor | Manager | Admin

  /** Staff.js; `username` is stored lower-cased. */
  datatype StaffMember = StaffMember(username: string, name: string, role: StaffRole)

  datatype LoginOutcome =
    | LoggedIn(id: nat)
    | Throttled      // the gate's 429, before any lookup
    | Unauthorized   // 401
    | LockedOut      // 429 from the failure that set the block

  datatype RegisterOutcome =
    | Registered(id: nat, cardNumber: string)
    | PhoneTaken
    | NoFreeCardNumber
    | InvalidRecord

  function HasCard(cardNumber: string): Player -> bool {
    (p: Player) => p.cardNumber == cardNumber
  }

  function HasPhone(phone: string): Player -> bool {
    (p: Player) => p.phone == phone
  }

  function HasUsername(username: string): StaffMember -> bool {
    (s: StaffMember) => s.username == username
  }

  /** A phone credential is checked against `phoneLast4`; anything else is a PIN, whose bcrypt result is given. */
  predicate CredentialValid(p: Player, credential: Option<string>, loginMethod: string, pinMatches: bool) {
    if loginMethod == "phone" then p.phoneLast4 == credential else pinMatches
  }

  /** The throttle state after a rejected login at `now` that passed the gate. */
  predicate RecordedFailure(limiter: LoginLimiter, oldAttempts: map<string, seq<int>>, oldBlocked: map<string, int>,
                            ip: string, now: int)
    reads limiter
  {
    var kept := Kept(oldAttempts, ip, now);
    && limiter.attempts == oldAttempts[ip := kept]
    && limiter.blocked == if |kept| >= MaxAttempts then AfterCheck(oldBlocked, ip, now)[ip := now + BlockDurationMs]
                          else AfterCheck(oldBlocked, ip, now)
  }

  /**
   * POST /player/login. A blocked address gets 429 and nothing changes. An
   * unknown card records a failure and gets 401 even if that failure sets
   * the block. A wrong credential records a failure and gets 429 when it
   * set the block, else 401. A right one clears the address's failures.
   */
  method PlayerLogin(limiter: LoginLimiter, players: seq<Player>, cardNumber: string, credential: Option<string>,
                     loginMethod: string, pinMatches: bool, ip: string, now: int)
    returns (out: LoginOutcome)
    modifies limiter
    ensures out == Throttled <==> BlockedAt(old(limiter.blocked), ip, now)
    ensures out == Throttled ==> limiter.attempts == old(limiter.attempts) && limiter.blocked == old(limiter.blocked)
    ensures out != Throttled ==>
      var found := Seqs.FindFirst(players, HasCard(cardNumber));
      && (out.LoggedIn? <==> found.Some? && CredentialValid(players[found.value], credential, loginMethod, pinMatches))
      && (out.LoggedIn? ==>
            && out.id == found.value
            && limiter.attempts == old(limiter.attempts) - {ip}
            && limiter.blocked == AfterCheck(old(limiter.blocked), ip, now))
      && (!out.LoggedIn? ==> RecordedFailure(limiter, old(limiter.attempts), old(limiter.blocked), ip, now))
      && (out == LockedOut <==> found.Some? && !out.LoggedIn? && |Kept(old(limiter.attempts), ip, now)| >= MaxAttempts)
  {
    var allowed := limiter.Gate(ip, now);
    if !allowed {
      return Throttled;
    }
    var found := Seqs.FindFirst(players, HasCard(cardNumber));
    if found.None? {
      var _ := limiter.RecordAttempt(ip, false, now);
      return Unauthorized;
    }
    var player := players[found.value];
    var isValid := if loginMethod == "phone" then player.phoneLast4 == credential else pinMatches;
    if !isValid {
      var wasBlocked := limiter.RecordAttempt(ip, false, now);
      if wasBlocked {
        return LockedOut;
      }
      return Unauthorized;
    }
    var _ := limiter.RecordAttempt(ip, true, now);
    out := LoggedIn(found.value);
  }

  /**
   * POST /staff/login: the user name is looked up lower-cased; an unknown
   * user and a wrong password are the same failure (429 when it set the
   * block, else 401); a success clears the address's failures.
   */
  method StaffLogin(limiter: LoginLimiter, staff: seq<StaffMember>, username: string, passwordMatches: bool,
                    ip: string, now: int)
    returns (out: LoginOutcome)
    modifies limiter
    ensures out == Throttled <==> BlockedAt(old(limiter.blocked), ip, now)
    ensures out == Throttled ==> limiter.attempts == old(limiter.attempts) && limiter.blocked == old(limiter.blocked)
    ensures out != Throttled ==>
      var found := Seqs.FindFirst(staff, HasUsername(Text.ToLower(username)));
      && (out.LoggedIn? <==> found.Some? && passwordMatches)
      && (out.LoggedIn? ==>
            && out.id == found.value
            && limiter.attempts == old(limiter.attempts) - {ip}
            && limiter.blocked == AfterCheck(old(limiter.blocked), ip, now))
      && (!out.LoggedIn? ==> RecordedFailure(limiter, old(limiter.attempts), old(limiter.blocked), ip, now))
      && (out == LockedOut <==> !out.LoggedIn? && |Kept(old(limiter.attempts), ip, now)| >= MaxAttempts)
  {
    var allowed := limiter.Gate(ip, now);
    if !allowed {
      return Throttled;
    }
    var found := Seqs.FindFirst(staff, HasUsername(Text.ToLower(username)));
    if found.None? || !passwordMatches {
      var wasBlocked := limiter.RecordAttempt(ip, false, now);
      if wasBlocked {
        return LockedOut;
      }
      return Unauthorized;
    }
    var _ := limiter.RecordAttempt(ip, true, now);
    out := LoggedIn(found.value);
  }

  /** Upper-casing before the lookup's lower-casing changes nothing: "ADMIN" and "admin" find the same account. */
  lemma {:induction false} StaffLookupIgnoresCase(staff: seq<StaffMember>, username: string)
    ensures Seqs.FindFirst(staff, HasUsername(Text.ToLower(Text.ToUpper(username)))) ==
            Seqs.FindFirst(staff, HasUsername(Text.ToLower(username)))
  {
    var a, b := Text.ToLower(Text.ToUpper(username)), Text.ToLower(username);
    forall i | 0 <= i < |username| ensures a[i] == b[i] {
      var c := username[i];
      assert a[i] == Text.LowerChar(Text.UpperChar(c));
    }
    assert a == b;
  }

  /** A player saved with a phone can log in by phone with that phone's last four characters. */
  lemma SavedPlayerPhoneLogin(p: Player, hashOfPin: string, pinMatches: bool)
    requires p.phone != ""
    ensures CredentialValid(PreSave(p, true, hashOfPin), Some(Last4(p.phone)), "phone", pinMatches)
    ensures forall c :: c != Some(Last4(p.phone)) ==> !CredentialValid(PreSave(p, true, hashOfPin), c, "phone", pinMatches)
  {
  }

  function CardIsFree(players: seq<Player>): string -> bool {
    (c: string) => forall j :: 0 <= j < |players| ==> players[j].cardNumber != c
  }

  function CardOf(p: Player): string {
    p.cardNumber
  }

  /** The record `Player.create` saves: upper-cased initial, no points, then the pre-save hook on a new PIN. */
  function NewPlayer(cardNumber: string, firstName: string, lastInitial: string, phone: string,
                     email: Option<string>, pin: string, hashOfPin: string): (p: Player)
    ensures p.cardNumber == cardNumber && p.firstName == firstName && p.lastInitial == Text.ToUpper(lastInitial)
    ensures p.phone == phone && p.email == email && p.pointsJanuary == 0 && p.rank.None?
    ensures p.pinHash == if |pin| <= 6 then hashOfPin else pin
    ensures phone != "" ==> p.phoneLast4 == Some(Last4(phone))
  {
    PreSave(Player(cardNumber, firstName, Text.ToUpper(lastInitial), phone, None, email, pin, 0, None), true, hashOfPin)
  }

  /** The schema's checks: every required string present, and the initial one character long. */
  predicate SavableRecord(firstName: string, lastInitial: string, phone: string, pin: string) {
    firstName != "" && |lastInitial| == 1 && phone != "" && pin != ""
  }

  /**
   * POST /player/register: an already registered phone is refused (400);
   * card numbers are drawn until one no player holds (here: until the
   * supplied draws run out); the record must pass the schema's checks.
   */
  method Register(reg: Players.PlayerRegistry, firstName: string, lastInitial: string, phone: string,
                  email: Option<string>, pin: string, draws: seq<string>, hashOfPin: string)
    returns (out: RegisterOutcome)
    modifies reg
    ensures reg.checkins == old(reg.checkins) && reg.transactions == old(reg.transactions)
    ensures out == PhoneTaken <==> exists j :: 0 <= j < |old(reg.players)| && old(reg.players)[j].phone == phone
    ensures !out.Registered? ==> reg.players == old(reg.players)
    ensures out.PhoneTaken? || out == NoFreeCardNumber <==>
      out.PhoneTaken? || Seqs.FindFirst(draws, CardIsFree(old(reg.players))).None?
    ensures out.Registered? ==>
      var k := Seqs.FindFirst(draws, CardIsFree(old(reg.players))).value;
      && out.cardNumber == draws[k]
      && out.id == |old(reg.players)|
      && reg.players == old(reg.players) + [NewPlayer(draws[k], firstName, lastInitial, phone, email, pin, hashOfPin)]
    ensures out == InvalidRecord ==> !SavableRecord(firstName, Text.ToUpper(lastInitial), phone, pin)
    ensures out.Registered? ==> SavableRecord(firstName, Text.ToUpper(lastInitial), phone, pin)
    ensures Seqs.DistinctBy(old(reg.players), CardOf) ==> Seqs.DistinctBy(reg.players, CardOf)
  {
    var players := reg.players;
    var existing := Seqs.FindFirst(players, HasPhone(phone));
    if existing.Some? {
      return PhoneTaken;
    }
    var k := 0;
    while k < |draws| && !CardIsFree(players)(draws[k])
      invariant 0 <= k <= |draws|
      invariant forall i :: 0 <= i < k ==> !CardIsFree(players)(draws[i])
    {
      k := k + 1;
    }
    if k == |draws| {
      return NoFreeCardNumber;
    }
    assert Seqs.FindFirst(draws, CardIsFree(players)) == Some(k);
    var initial := Text.ToUpper(lastInitial);
    if !SavableRecord(firstName, initial, phone, pin) {
      return InvalidRecord;
    }
    var p := NewPlayer(draws[k], firstName, lastInitial, phone, email, pin, hashOfPin);
    if Seqs.DistinctBy(players, CardOf) {
      Seqs.AppendDistinctBy(players, CardOf, p);
    }
    reg.players := players + [p];
    out := Registered(|players|, draws[k]);
  }
}
