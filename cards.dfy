/** The value types of the game: cards, players and the active claim. */
module Cards {

  datatype Option<T> = None | Some(value: T)

  datatype Suit = Clubs | Spades | Diamonds | Hearts

  datatype Rank = Ace | Two | Three | Four | Five | Six | Seven | Eight | Nine | Ten | Jack | Queen | King

  /** The suits in the order in which a deck is built. */
  const Suits: seq<Suit> := [Clubs, Spades, Diamonds, Hearts]

  /** The ranks in the order in which a suit is built. */
  const Ranks: seq<Rank> := [Ace, Two, Three, Four, Five, Six, Seven, Eight, Nine, Ten, Jack, Queen, King]

  /** A card. `id` is its position in the unshuffled multi-deck list, so two
      cards with the same suit and rank from different decks stay distinct. */
  datatype Card = Card(id: nat, suit: Suit, rank: Rank)

  /** A player's state: still playing this round, or passed. */
  datatype PlayState = Play | Pass

  /** A seat: its cards, its state and its bluff probability. */
  datatype Player = Player(cards: seq<Card>, state: PlayState, lie: real)

  /** The active claim: the claimed rank (None when no claim is active), the
      cards laid face down for it and the seat that laid them (-1 before any play). */
  datatype Hand = Hand(rank: Option<Rank>, cards: seq<Card>, lastTurn: int)

  const StartHand: Hand := Hand(None, [], -1)

  /** Every rank is one of the thirteen in Ranks, at index RankIndex. */
  function RankIndex(r: Rank): (k: nat)
    ensures k < 13 && Ranks[k] == r
  {
    match r
    case Ace => 0 case Two => 1 case Three => 2 case Four => 3 case Five => 4
    case Six => 5 case Seven => 6 case Eight => 7 case Nine => 8 case Ten => 9
    case Jack => 10 case Queen => 11 case King => 12
  }

  /** Every suit is one of the four in Suits, at index SuitIndex. */
  function SuitIndex(s: Suit): (k: nat)
    ensures k < 4 && Suits[k] == s
  {
    match s
    case Clubs => 0 case Spades => 1 case Diamonds => 2 case Hearts => 3
  }

  /** Number of cards of `cards` with the given suit and rank. */
  function Occurrences(cards: seq<Card>, s: Suit, r: Rank): nat
  {
    if cards == [] then 0
    else Occurrences(cards[..|cards| - 1], s, r)
         + (if cards[|cards| - 1].suit == s && cards[|cards| - 1].rank == r then 1 else 0)
  }

  predicate Distinct<T(==)>(s: seq<T>)
  {
    forall i, j :: 0 <= i < j < |s| ==> s[i] != s[j]
  }
}
