/**
 * The hand evaluator: a player's dealt cards, the running blackjack value,
 * the number of aces still counted as 11, and the "fixed" flag that says the
 * player stopped drawing.
 */
module Hands {
  import opened Cards

  /** What is stored for a hand: its `cards`, `value`, `aces` and `fix` fields. */
  datatype HandRecord = HandRecord(cards: seq<Card>, value: int, aces: int, fix: bool)

  /** The record of a freshly constructed hand. */
  const EmptyHand := HandRecord([], 0, 0, false)

  /** The total of the cards with every ace at 11. */
  function RawValue(cards: seq<Card>): nat
  {
    if cards == [] then 0 else RawValue(cards[..|cards| - 1]) + Value(cards[|cards| - 1].rank)
  }

  /** How many aces the cards hold. */
  function AceCount(cards: seq<Card>): nat
  {
    if cards == [] then 0 else AceCount(cards[..|cards| - 1]) + (if cards[|cards| - 1].rank == Ace then 1 else 0)
  }

  /**
   * The (value, aces) pair the ace-adjustment loop ends with: while the value
   * is over 21 and some ace still counts 11, one ace is demoted to 1.
   */
  function Adjusted(value: int, aces: int): (r: (int, int))
    decreases if value > 21 then value else 0
    ensures r.0 <= 21 || r.1 == 0
    ensures value - r.0 == 10 * (aces - r.1)
    ensures aces >= 0 ==> 0 <= r.1 <= aces
    ensures r.1 != aces ==> r.0 > 11
  {
    if value > 21 && aces != 0 then Adjusted(value - 10, aces - 1) else (value, aces)
  }

  /** Adjusting an already adjusted pair changes nothing. */
  lemma AdjustedIdempotent(value: int, aces: int)
    ensures Adjusted(Adjusted(value, aces).0, Adjusted(value, aces).1) == Adjusted(value, aces)
  {
  }

  /**
   * The invariant of every hand built by dealing: `aces` counts the aces not
   * yet demoted, `value` is the card total less 10 per demoted ace, no ace is
   * left at 11 in a bust hand, and an ace was demoted only when keeping it
   * at 11 would have busted.
   */
  ghost predicate Consistent(h: HandRecord)
  {
    var n := AceCount(h.cards);
    && 0 <= h.aces <= n
    && h.value == RawValue(h.cards) - 10 * (n - h.aces)
    && (h.value > 21 ==> h.aces == 0)
    && (h.aces < n ==> h.value > 11)
  }

  /** The record after `add_card(c)` followed by `adjust_for_ace()`. */
  function Drawn(h: HandRecord, c: Card): (r: HandRecord)
  {
    var a := Adjusted(h.value + Value(c.rank), h.aces + (if c.rank == Ace then 1 else 0));
    HandRecord(h.cards + [c], a.0, a.1, h.fix)
  }

  lemma EmptyHandConsistent()
    ensures Consistent(EmptyHand)
  {
  }

  /** Dealing a card into a consistent hand and adjusting for aces keeps it consistent. */
  lemma DrawnConsistent(h: HandRecord, c: Card)
    requires Consistent(h)
    ensures Consistent(Drawn(h, c))
    ensures Drawn(h, c).cards == h.cards + [c] && Drawn(h, c).fix == h.fix
  {
    var cs := h.cards + [c];
    assert cs[..|cs| - 1] == h.cards;
    assert RawValue(cs) == RawValue(h.cards) + Value(c.rank);
    assert AceCount(cs) == AceCount(h.cards) + (if c.rank == Ace then 1 else 0);
  }

  /**
   * Starting `aces` undemoted from `value + 10 * (k - a)`, the loop stops at
   * `(value, a)` when every intermediate value is still over 21.
   */
  lemma {:induction false} AdjustedStopsAt(value: int, a: int, k: int)
    requires 0 <= a <= k
    requires value > 21 ==> a == 0
    requires a < k ==> value > 11
    ensures Adjusted(value + 10 * (k - a), k) == (value, a)
    decreases k - a
  {
    if a < k {
      AdjustedStopsAt(value, a, k - 1);
    }
  }

  /**
   * A consistent hand's value and ace counter are determined by its cards:
   * they are what the ace adjustment makes of the raw total.
   */
  lemma ConsistentIsAdjustedTotal(h: HandRecord)
    requires Consistent(h)
    ensures (h.value, h.aces) == Adjusted(RawValue(h.cards), AceCount(h.cards))
  {
    var n := AceCount(h.cards);
    AdjustedStopsAt(h.value, h.aces, n);
  }

  /** The hand object that hit() rebuilds from its record, updates and stores back. */
  class Hand {
    var cards: seq<Card>
    var value: int
    var aces: int
    var fix: bool

    /** `Hand()`: no cards, value 0, no aces, not fixed. */
    constructor ()
      ensures Record() == EmptyHand
    {
      cards, value, aces, fix := [], 0, 0, false;
    }

    /** `Hand(cards, value, aces, fix)`: the hand described by a stored record. */
    constructor FromRecord(h: HandRecord)
      ensures Record() == h
    {
      cards, value, aces, fix := h.cards, h.value, h.aces, h.fix;
    }

    /** The record that is stored for this hand. */
    function Record(): HandRecord
      reads this
    {
      HandRecord(cards, value, aces, fix)
    }

    /** `add_card`: the card goes to the end, its table value is added, an ace is counted. */
    method AddCard(c: Card)
      modifies this
      ensures cards == old(cards) + [c]
      ensures value == old(value) + Value(c.rank)
      ensures aces == old(aces) + (if c.rank == Ace then 1 else 0)
      ensures fix == old(fix)
    {
      cards := cards + [c];
      value := value + Value(c.rank);
      if c.rank == Ace {
        aces := aces + 1;
      }
    }

    /** `adjust_for_ace`: demote aces, 10 points each, while the hand is over 21. */
    method AdjustForAce()
      modifies this
      ensures (value, aces) == Adjusted(old(value), old(aces))
      ensures value <= 21 || aces == 0
      ensures old(value) - value == 10 * (old(aces) - aces)
      ensures old(aces) >= 0 ==> 0 <= aces <= old(aces)
      ensures cards == old(cards) && fix == old(fix)
    {
      while value > 21 && aces != 0
        invariant Adjusted(value, aces) == Adjusted(old(value), old(aces))
        invariant cards == old(cards) && fix == old(fix)
        decreases if value > 21 then value else 0
      {
        value := value - 10;
        aces := aces - 1;
      }
    }
  }
}
