/**
 * The player record, its `name` virtual and its pre-save hook
 * (backend/models/Player.js). bcrypt hashing is external: the hook receives
 * the hash of the current PIN as a parameter.
 */
module PlayerModel {
  import opened Wrappers
  import opened Models

  datatype Player = Player(
    cardNumber: string,
    firstName: string,
    lastInitial: string,
    phone: string,
    phoneLast4: Option<string>,
    email: Option<string>,
    pinHash: string,
    pointsJanuary: int,
    rank: Option<int>)

  /** The `name` virtual: first name, one space, last initial. */
  function Name(p: Player): (r: string)
    ensures |r| == |p.firstName| + 1 + |p.lastInitial|
  {
    p.firstName + " " + p.lastInitial
  }

  /** The text before the first space of `s`. */
  function BeforeSpace(s: string): (r: string)
    ensures r <= s && ' ' !in r
    ensures |r| < |s| ==> s[|r|] == ' '
    decreases |s|
  {
    if s == [] || s[0] == ' ' then [] else [s[0]] + BeforeSpace(s[1..])
  }

  /** When the first name has no space, the display name splits back into first name and initial. */
  lemma {:induction false} NameSplitsBack(p: Player)
    requires ' ' !in p.firstName
    ensures BeforeSpace(Name(p)) == p.firstName
    ensures Name(p)[|p.firstName| + 1..] == p.lastInitial
    decreases |p.firstName|
  {
    var n := Name(p);
    assert n == p.firstName + [' '] + p.lastInitial;
    if p.firstName != [] {
      var q := p.(firstName := p.firstName[1..]);
      assert n[1..] == Name(q);
      NameSplitsBack(q);
    }
  }

  /** `phone.slice(-4)`: the last four characters, or the whole string when shorter. */
  function Last4(phone: string): (r: string)
    ensures |r| == if |phone| < 4 then |phone| else 4
    ensures phone == phone[..|phone| - |r|] + r
  {
    if |phone| <= 4 then phone else phone[|phone| - 4..]
  }

  /**
   * The pre-save hook. Nothing happens unless `pinHash` was modified; then a
   * value of at most six characters (a raw PIN) is replaced by `hashOfPin`,
   * a longer one (already a hash) is kept, and a non-empty phone refreshes
   * `phoneLast4`.
   */
  function PreSave(p: Player, pinModified: bool, hashOfPin: string): (q: Player)
    ensures !pinModified ==> q == p
    ensures pinModified ==> q.pinHash == if |p.pinHash| <= 6 then hashOfPin else p.pinHash
    ensures pinModified && p.phone != "" ==> q.phoneLast4 == Some(Last4(p.phone))
    ensures p.phone == "" ==> q.phoneLast4 == p.phoneLast4
    ensures q.(pinHash := p.pinHash, phoneLast4 := p.phoneLast4) == p
  {
    if !pinModified then p
    else
      var hashed := if |p.pinHash| <= 6 then p.(pinHash := hashOfPin) else p;
      if p.phone != "" then hashed.(phoneLast4 := Some(Last4(p.phone))) else hashed
  }

  /** A stored hash longer than six characters is never hashed again, so saving twice equals saving once. */
  lemma PreSaveTwice(p: Player, hash1: string, hash2: string)
    requires |hash1| > 6
    ensures PreSave(PreSave(p, true, hash1), true, hash2) == PreSave(p, true, hash1)
  {
  }
}
