/**
 * Playing cards: the four suits and thirteen ranks in the order the deck is
 * built, and the blackjack value table of the hand evaluator.
 */
module Cards {

  datatype Suit = Hearts | Diamonds | Spades | Clubs

  datatype Rank = Two | Three | Four | Five | Six | Seven | Eight | Nine | Ten | Jack | Queen | King | Ace

  /** A card is a (suit, rank) pair and nothing more. */
  datatype Card = Card(suit: Suit, rank: Rank)

  /** The suits, in the order the deck is filled. */
  const Suits: seq<Suit> := [Hearts, Diamonds, Spades, Clubs]

  /** The ranks, in the order the deck is filled within each suit. */
  const Ranks: seq<Rank> := [Two, Three, Four, Five, Six, Seven, Eight, Nine, Ten, Jack, Queen, King, Ace]

  /** The value table: numbered ranks at face value, court cards 10, an ace 11. */
  function Value(r: Rank): (v: nat)
    ensures 2 <= v <= 11
    ensures v == 11 <==> r == Ace
    ensures r == Jack || r == Queen || r == King ==> v == 10
  {
    match r
    case Two => 2
    case Three => 3
    case Four => 4
    case Five => 5
    case Six => 6
    case Seven => 7
    case Eight => 8
    case Nine => 9
    case Ten => 10
    case Jack => 10
    case Queen => 10
    case King => 10
    case Ace => 11
  }

  /** Ranks `Two` to `Ten` (positions 0 to 8) count their face value. */
  lemma FaceValue(j: nat)
    requires j < 9
    ensures Value(Ranks[j]) == j + 2
  {
  }

  /** Every suit and every rank appears exactly once in its table. */
  lemma TablesComplete(s: Suit, r: Rank)
    ensures s in Suits && r in Ranks
    ensures forall i, j :: 0 <= i < j < |Suits| ==> Suits[i] != Suits[j]
    ensures forall i, j :: 0 <= i < j < |Ranks| ==> Ranks[i] != Ranks[j]
  {
  }
}
