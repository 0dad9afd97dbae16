/**
 * The deck: the 52 cards built suit by suit, and `deal`, which pops the card
 * at a pseudo-random index. The index is a hash of public values taken modulo
 * the deck size; the hash itself is not modelled, only the number it yields
 * (`entropy`).
 */
module Decks {
  import opened Icon
  import opened Cards
  import opened Seqs

  /** The 52 cards in the order the constructor appends them. */
  function FreshDeck(): (d: seq<Card>)
    ensures |d| == 52
  {
    seq(52, k requires 0 <= k < 52 => Card(Suits[k / 13], Ranks[k % 13]))
  }

  /** Suit-major order: position `13 * i + j` holds suit `i` and rank `j` of the tables. */
  lemma FreshDeckOrder(i: nat, j: nat)
    requires i < 4 && j < 13
    ensures 13 * i + j < 52
    ensures FreshDeck()[13 * i + j] == Card(Suits[i], Ranks[j])
  {
    var k := 13 * i + j;
    assert k / 13 == i && k % 13 == j;
  }
  /** Appending suit `i`, rank `j` extends the prefix of the fresh deck by one card. */
  lemma FreshDeckGrows(i: nat, j: nat)
    requires i < 4 && j < 13
    ensures FreshDeck()[..13 * i + j + 1] == FreshDeck()[..13 * i + j] + [Card(Suits[i], Ranks[j])]
  {
    FreshDeckOrder(i, j);
    PrefixStep(FreshDeck(), 13 * i + j);
  }


  /** The fresh deck holds no card twice. */
  lemma FreshDeckDistinct()
    ensures Distinct(FreshDeck())
  {
    var d := FreshDeck();
    forall k1, k2 | 0 <= k1 < k2 < 52 ensures d[k1] != d[k2] {
      TablesComplete(Hearts, Two);
      if k1 / 13 == k2 / 13 {
        assert k1 % 13 != k2 % 13;
      }
    }
  }

  /** The fresh deck holds every card. */
  lemma FreshDeckComplete(c: Card)
    ensures c in FreshDeck()
  {
    TablesComplete(c.suit, c.rank);
    var i :| 0 <= i < 4 && Suits[i] == c.suit;
    var j :| 0 <= j < 13 && Ranks[j] == c.rank;
    FreshDeckOrder(i, j);
  }

  /** The deck left after one deal per entropy value, or None when a deal meets an empty deck. */
  function DealMany(deck: seq<Card>, entropies: seq<nat>): Option<seq<Card>>
    decreases |entropies|
  {
    if entropies == [] then Some(deck)
    else if deck == [] then None
    else DealMany(RemoveAt(deck, entropies[0] % |deck|), entropies[1..])
  }

  /**
   * Dealing k times from a deck without duplicates succeeds while k does not
   * exceed its size, and leaves k fewer cards, still without duplicates,
   * every one of them from the original deck.
   */
  lemma {:induction false} DealManyShrinks(deck: seq<Card>, entropies: seq<nat>)
    requires Distinct(deck)
    ensures |entropies| <= |deck| ==> DealMany(deck, entropies).Some?
    ensures DealMany(deck, entropies).Some? ==>
      var rest := DealMany(deck, entropies).value;
      && |rest| == |deck| - |entropies|
      && Distinct(rest)
      && forall c :: c in rest ==> c in deck
    decreases |entropies|
  {
    if entropies != [] && deck != [] {
      var k := entropies[0] % |deck|;
      RemoveAtDistinct(deck, k);
      DealManyShrinks(RemoveAt(deck, k), entropies[1..]);
    }
  }

  /** After k deals from a fresh deck, k <= 52, it holds 52 - k distinct cards of the original 52. */
  lemma DealsFromFreshDeck(entropies: seq<nat>)
    requires |entropies| <= 52
    ensures DealMany(FreshDeck(), entropies).Some?
    ensures |DealMany(FreshDeck(), entropies).value| == 52 - |entropies|
    ensures Distinct(DealMany(FreshDeck(), entropies).value)
  {
    FreshDeckDistinct();
    DealManyShrinks(FreshDeck(), entropies);
  }

  class Deck {
    var deck: seq<Card>

    /** `Deck()`: every suit in table order, and within it every rank in table order. */
    constructor ()
      ensures deck == FreshDeck()
    {
      var cards: seq<Card> := [];
      for i := 0 to |Suits|
        invariant cards == FreshDeck()[..13 * i]
      {
        for j := 0 to |Ranks|
          invariant cards == FreshDeck()[..13 * i + j]
        {
          FreshDeckGrows(i, j);
          cards := cards + [Card(Suits[i], Ranks[j])];
        }
      }
      deck := cards;
    }

    /** `Deck(cards)`: the deck rebuilt from its stored list. */
    constructor FromCards(cards: seq<Card>)
      ensures deck == cards
    {
      deck := cards;
    }

    /**
     * `deal`: remove and return the card at `entropy mod len(deck)`. On an
     * empty deck the modulo divides by zero and nothing is dealt.
     */
    method Deal(entropy: nat) returns (r: Option<Card>)
      modifies this
      ensures old(deck) == [] ==> r == None && deck == old(deck)
      ensures old(deck) != [] ==>
        var k := entropy % |old(deck)|;
        r == Some(old(deck)[k]) && deck == RemoveAt(old(deck), k)
      ensures r.Some? ==> r.value in old(deck) && |deck| == |old(deck)| - 1
      ensures r.Some? && Distinct(old(deck)) ==> r.value !in deck && Distinct(deck)
    {
      if deck == [] {
        return None;
      }
      var k := entropy % |deck|;
      var card := deck[k];
      if Distinct(deck) {
        RemoveAtDistinct(deck, k);
      }
      deck := RemoveAt(deck, k);
      r := Some(card);
    }
  }
}
