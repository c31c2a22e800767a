/** A player's badge card for one flush session (backend/models/FlushProgress.js). */
module FlushProgressModel {
  import opened Wrappers
  import opened Models
  import Seqs

  datatype FlushProgress = FlushProgress(
    player: PlayerId,
    playerName: Option<string>,
    cardNumber: Option<string>,
    sessionType: SessionType,
    sessionDate: string,
    spade: bool,
    heart: bool,
    diamond: bool,
    club: bool,
    completedAt: Option<Millis>,
    createdAt: Millis,
    updatedAt: Millis)

  /** A fresh record: the schema defaults leave all four badges unset and no completion time. */
  function NewProgress(player: PlayerId, playerName: Option<string>, cardNumber: Option<string>,
                       sessionType: SessionType, sessionDate: string, now: Millis): (p: FlushProgress)
    ensures p.player == player && p.sessionType == sessionType && p.sessionDate == sessionDate
    ensures p.playerName == playerName && p.cardNumber == cardNumber
    ensures !p.spade && !p.heart && !p.diamond && !p.club
    ensures p.completedAt.None?
    ensures Suits(p) == []
  {
    FlushProgress(player, playerName, cardNumber, sessionType, sessionDate,
                  false, false, false, false, None, now, now)
  }

  /** The badge flag that the one-letter suit code `c` ('S', 'H', 'D' or 'C') stands for. */
  predicate HasSuit(p: FlushProgress, c: char) {
    (c == 'S' && p.spade) || (c == 'H' && p.heart) || (c == 'D' && p.diamond) || (c == 'C' && p.club)
  }

  /** The four suit codes in the order the `suits` virtual lists them. */
  const SuitOrder: seq<char> := ['S', 'H', 'D', 'C']

  /** All four badges are held. */
  predicate IsComplete(p: FlushProgress) {
    p.spade && p.heart && p.diamond && p.club
  }

  /** The number of badges held. */
  function BadgeCount(p: FlushProgress): (n: nat)
    ensures n <= 4
  {
    (if p.spade then 1 else 0) + (if p.heart then 1 else 0) +
    (if p.diamond then 1 else 0) + (if p.club then 1 else 0)
  }

  /** The `suits` virtual: the held suit codes, each once, in the fixed order S, H, D, C. */
  function Suits(p: FlushProgress): (r: seq<char>)
    ensures |r| == BadgeCount(p)
    ensures Seqs.Distinct(r)
    ensures forall c :: c in r <==> c in SuitOrder && HasSuit(p, c)
  {
    (if p.spade then ['S'] else []) + (if p.heart then ['H'] else []) +
    (if p.diamond then ['D'] else []) + (if p.club then ['C'] else [])
  }

  /** The flag lookup of `p` as a predicate on suit codes. */
  function Held(p: FlushProgress): char -> bool {
    c => HasSuit(p, c)
  }

  /** The virtual lists exactly the held codes of S, H, D, C in that order: it is the filter of that sequence by the flags. */
  lemma SuitsIsOrderedFilter(p: FlushProgress)
    ensures Suits(p) == Seqs.Filter(SuitOrder, Held(p))
  {
    var f := Held(p);
    assert SuitOrder[..3] == ['S', 'H', 'D'];
    assert ['S', 'H', 'D'][..2] == ['S', 'H'];
    assert ['S', 'H'][..1] == ['S'];
    assert ['S'][..0] == [];
    assert Seqs.Filter(['S'], f) == (if p.spade then ['S'] else []);
    assert Seqs.Filter(['S', 'H'], f) == Seqs.Filter(['S'], f) + (if p.heart then ['H'] else []);
    assert Seqs.Filter(['S', 'H', 'D'], f) == Seqs.Filter(['S', 'H'], f) + (if p.diamond then ['D'] else []);
    assert Seqs.Filter(SuitOrder, f) == Seqs.Filter(['S', 'H', 'D'], f) + (if p.club then ['C'] else []);
  }

  /** `suits.length` reaches 4 exactly when the card is complete. */
  lemma FullSuitsIffComplete(p: FlushProgress)
    ensures |Suits(p)| == 4 <==> IsComplete(p)
    ensures |Suits(p)| == 4 ==> Suits(p) == SuitOrder
  {
  }

  /** The four badge names a staff member can award. */
  datatype Suit = Spade | Heart | Diamond | Club

  /** The badge named by the request's `suit` field; any other name sets no badge. */
  function ParseSuit(name: string): (s: Option<Suit>)
    ensures s == Some(Spade) <==> name == "spade"
    ensures s == Some(Heart) <==> name == "heart"
    ensures s == Some(Diamond) <==> name == "diamond"
    ensures s == Some(Club) <==> name == "club"
  {
    if name == "spade" then Some(Spade)
    else if name == "heart" then Some(Heart)
    else if name == "diamond" then Some(Diamond)
    else if name == "club" then Some(Club)
    else None
  }

  /** `progress[suit] = true`: the named badge becomes true, the other three and all other fields keep their values. */
  function SetBadge(p: FlushProgress, suit: Option<Suit>): (q: FlushProgress)
    ensures q.spade == (p.spade || suit == Some(Spade))
    ensures q.heart == (p.heart || suit == Some(Heart))
    ensures q.diamond == (p.diamond || suit == Some(Diamond))
    ensures q.club == (p.club || suit == Some(Club))
    ensures q.(spade := p.spade, heart := p.heart, diamond := p.diamond, club := p.club) == p
  {
    match suit
    case None => p
    case Some(Spade) => p.(spade := true)
    case Some(Heart) => p.(heart := true)
    case Some(Diamond) => p.(diamond := true)
    case Some(Club) => p.(club := true)
  }

  /** Badges are only ever added: every suit held before is held after, and re-awarding a held suit changes nothing. */
  lemma SetBadgeMonotone(p: FlushProgress, suit: Option<Suit>)
    ensures forall c :: c in Suits(p) ==> c in Suits(SetBadge(p, suit))
    ensures BadgeCount(p) <= BadgeCount(SetBadge(p, suit)) <= BadgeCount(p) + 1
    ensures SetBadge(SetBadge(p, suit), suit) == SetBadge(p, suit)
  {
  }
}
