/** `Deck` and its three subclasses as one class whose variant fixes the rank
    list and the hand size, and `WarDeckHand`, the one hand the source changes
    in place. Belote and SixtySix hands are never changed after the deal and
    are plain card sequences (modules `BeloteHand` and `SixtySixHand`). */
module Decks {
  import opened Seqs
  import opened Cards

  /** A variant `deal` hands over `Take(cards, n)` and keeps `cards - hand`.
      For a deck without repeated cards that is a split of the sequence: the
      hand is the first `min(n, size)` cards and the deck keeps the others in
      order, so no card is lost or duplicated. */
  lemma DealSplits(cards: seq<Card>, n: nat)
    requires Distinct(cards)
    ensures Minus(cards, Take(cards, n)) == cards[|Take(cards, n)|..]
    ensures |Take(cards, n)| + |Minus(cards, Take(cards, n))| == |cards|
    ensures multiset(Take(cards, n)) + multiset(Minus(cards, Take(cards, n))) == multiset(cards)
    ensures Distinct(Take(cards, n)) && Distinct(Minus(cards, Take(cards, n)))
    ensures Take(cards, n) + Minus(cards, Take(cards, n)) == cards
  {
    var k := |Take(cards, n)|;
    MinusPrefix(cards, k);
    assert cards == cards[..k] + cards[k..];
    DistinctSub(cards, 0, k);
    DistinctSub(cards, k, |cards|);
  }

  /** With a repeated card the Array difference removes every copy, so a
      deal can lose cards: dealing one card from `[c, c]` leaves nothing. */
  lemma DealDropsRepeats(c: Card)
    ensures Take([c, c], 1) == [c] && Minus([c, c], Take([c, c], 1)) == []
  {
    assert [c, c][1..] == [c];
  }

  /** Dealing from a fresh variant deck: the hand gets `CARDS_IN_HAND`
      cards (26, 8, 6) and the deck keeps the other `DECK_SIZE - CARDS_IN_HAND`
      (26, 24, 18). */
  lemma FreshDeal(v: Variant)
    requires v != Plain
    ensures |Take(FullDeck(Ranks(v)), HandSize(v))| == HandSize(v)
    ensures |Minus(FullDeck(Ranks(v)), Take(FullDeck(Ranks(v)), HandSize(v)))| == DeckSize(v) - HandSize(v)
  {
    FreshDeckShape(v);
    DealSplits(FullDeck(Ranks(v)), HandSize(v));
  }

  class Deck {
    const variant: Variant
    var cards: seq<Card>

    /** Every card has a rank of this variant, so sorting can compare keys. */
    ghost predicate Valid()
      reads this
    {
      RanksIn(Ranks(variant), cards)
    }

    /** `initialize(cards = [])`: an empty list (the default) builds the full
        deck from the variant's ranks; any other list is used as given. */
    constructor (variant: Variant, init: seq<Card>)
      requires RanksIn(Ranks(variant), init)
      ensures this.variant == variant && Valid()
      ensures cards == if init == [] then FullDeck(Ranks(variant)) else init
    {
      this.variant := variant;
      if init == [] {
        forall c | c in FullDeck(Ranks(variant)) ensures c.rank in Ranks(variant) {
          FullDeckMembers(Ranks(variant), c);
        }
        cards := FullDeck(Ranks(variant));
      } else {
        cards := init;
      }
    }

    /** `size`: the number of cards left. */
    function Size(): (n: nat)
      reads this
      ensures n == |cards|
    {
      |cards|
    }

    /** `top_card` (`@cards.first`): the first card, or `nil` on an empty deck. */
    function TopCard(): (c: Option<Card>)
      reads this
      ensures c == None <==> cards == []
      ensures c.Some? ==> c.value == cards[0]
    {
      if cards == [] then None else Some(cards[0])
    }

    /** `bottom_card` (`@cards.last`): the last card, or `nil` on an empty deck. */
    function BottomCard(): (c: Option<Card>)
      reads this
      ensures c == None <==> cards == []
      ensures c.Some? ==> c.value == cards[|cards| - 1]
    {
      if cards == [] then None else Some(cards[|cards| - 1])
    }

    /** `draw_top_card` (`delete_at(0)`): removes and returns the card that
        `top_card` shows; an empty deck gives `nil` and stays empty. */
    method DrawTop() returns (c: Option<Card>)
      requires Valid()
      modifies this
      ensures Valid()
      ensures c == old(TopCard())
      ensures cards == if old(cards) == [] then [] else old(cards)[1..]
      ensures old(cards) != [] ==> |cards| == |old(cards)| - 1
      ensures Distinct(old(cards)) ==> Distinct(cards)
    {
      if cards == [] {
        c := None;
      } else {
        c := Some(cards[0]);
        if Distinct(cards) {
          DistinctSub(cards, 1, |cards|);
        }
        cards := cards[1..];
      }
    }

    /** `draw_bottom_card` (`delete_at(-1)`): removes and returns the card
        that `bottom_card` shows. */
    method DrawBottom() returns (c: Option<Card>)
      requires Valid()
      modifies this
      ensures Valid()
      ensures c == old(BottomCard())
      ensures cards == if old(cards) == [] then [] else old(cards)[..|old(cards)| - 1]
      ensures old(cards) != [] ==> |cards| == |old(cards)| - 1
      ensures Distinct(old(cards)) ==> Distinct(cards)
    {
      if cards == [] {
        c := None;
      } else {
        c := Some(cards[|cards| - 1]);
        if Distinct(cards) {
          DistinctSub(cards, 0, |cards| - 1);
        }
        cards := cards[..|cards| - 1];
      }
    }

    /** `shuffle` (`shuffle!`): some rearrangement of the same cards. */
    method Shuffle()
      requires Valid()
      modifies this
      ensures Valid()
      ensures multiset(cards) == multiset(old(cards))
      ensures Distinct(old(cards)) ==> Distinct(cards)
    {
      var shuffled: seq<Card> :| multiset(shuffled) == multiset(cards);
      forall c | c in shuffled ensures c.rank in Ranks(variant) {
        assert c in multiset(cards);
      }
      if Distinct(cards) {
        DistinctPermutation(cards, shuffled);
      }
      cards := shuffled;
    }

    /** `sort`: the same cards rearranged in place into descending
        (suit, rank key) order. */
    method Sort()
      requires Valid()
      modifies this
      ensures Valid()
      ensures cards == SortDesc(Ranks(variant), old(cards))
      ensures multiset(cards) == multiset(old(cards))
      ensures Descending(Ranks(variant), cards)
      ensures Distinct(old(cards)) ==> Distinct(cards)
    {
      if Distinct(cards) {
        DistinctPermutation(cards, SortDesc(Ranks(variant), cards));
      }
      cards := SortDesc(Ranks(variant), cards);
    }

    /** The base `deal`: a hand holding the deck's own cards; nothing is
        removed from the deck. */
    method Deal() returns (hand: seq<Card>)
      requires variant == Plain
      ensures hand == cards
    {
      hand := cards;
    }

    /** `deal` of `BeloteDeck` and `SixtySixDeck` (and the card movement of
        `WarDeck#deal`): the hand is `@cards[0..CARDS_IN_HAND - 1]`, and the
        deck keeps `@cards - cards_hand`. */
    method DealHand() returns (hand: seq<Card>)
      requires variant != Plain && Valid()
      modifies this
      ensures Valid()
      ensures hand == Take(old(cards), HandSize(variant))
      ensures cards == Minus(old(cards), hand)
      ensures Distinct(old(cards)) ==>
                hand + cards == old(cards) && |hand| + |cards| == |old(cards)|
      ensures Distinct(old(cards)) ==> Distinct(hand) && Distinct(cards)
    {
      var n := HandSize(variant);
      hand := Take(cards, n);
      var rest := Minus(cards, hand);
      if Distinct(cards) {
        DealSplits(cards, n);
      }
      cards := rest;
    }

    /** `WarDeck#deal`: the first 26 cards become a `WarDeckHand`. */
    method DealWar() returns (hand: WarHand)
      requires variant == War && Valid()
      modifies this
      ensures Valid() && fresh(hand)
      ensures hand.cards == Take(old(cards), 26)
      ensures cards == Minus(old(cards), hand.cards)
      ensures Distinct(old(cards)) ==>
                hand.cards + cards == old(cards) && hand.Size() + |cards| == |old(cards)|
    {
      var dealt := DealHand();
      hand := new WarHand(dealt);
    }
  }

  /** `WarDeckHand`: the cards a War player holds. */
  class WarHand {
    var cards: seq<Card>

    constructor (cards: seq<Card>)
      ensures this.cards == cards
    {
      this.cards := cards;
    }

    /** `Hand#size`. */
    function Size(): (n: nat)
      reads this
      ensures n == |cards|
    {
      |cards|
    }

    /** `play_card`: `@cards_hand.delete(@cards_hand.sample)`. Some card of
        the hand is chosen, every copy of it is removed, and it is returned;
        an empty hand gives `nil`. */
    method PlayCard() returns (c: Option<Card>)
      modifies this
      ensures old(cards) == [] ==> c == None && cards == []
      ensures old(cards) != [] ==> c.Some? && c.value in old(cards) && cards == Minus(old(cards), [c.value])
      ensures old(cards) != [] && Distinct(old(cards)) ==>
                |cards| == |old(cards)| - 1 && multiset(cards) == multiset(old(cards)) - multiset{c.value}
    {
      if cards == [] {
        c := None;
      } else {
        assert cards[0] in cards;
        var x :| x in cards;
        c := Some(x);
        if Distinct(cards) {
          DeleteOnce(cards, x);
        }
        cards := Minus(cards, [x]);
      }
    }

    /** `allow_face_up?`: three cards or fewer are left. */
    predicate AllowFaceUp()
      reads this
      ensures AllowFaceUp() <==> Size() <= 3
    {
      |cards| <= 3
    }
  }
}
