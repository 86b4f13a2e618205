/** `SixtySixDeckHand`: the king-and-queen declarations of Sixty-Six. */
module SixtySixHand {
  import opened Seqs
  import opened Cards

  /** `twenty?(trump_suit)`: a pair in one of `SUITS - [trump_suit]`. */
  predicate Twenty(hand: seq<Card>, trump: Suit)
  {
    PairIn(hand, Minus(HandSuits, [trump]))
  }

  /** `forty?(trump_suit)`: a pair in `[trump_suit]`. */
  predicate Forty(hand: seq<Card>, trump: Suit)
  {
    PairIn(hand, [trump])
  }

  /** Twenty is declared with the king and queen of any suit except trumps. */
  lemma TwentyMeaning(hand: seq<Card>, trump: Suit)
    ensures Twenty(hand, trump) <==> exists s: Suit :: s != trump && HasPair(hand, s)
  {
    var others := Minus(HandSuits, [trump]);
    if exists s: Suit :: s != trump && HasPair(hand, s) {
      var s: Suit :| s != trump && HasPair(hand, s);
      assert HandSuits[SuitOrder(s)] == s;
      assert s in others;
      var i :| 0 <= i < |others| && others[i] == s;
    }
    if Twenty(hand, trump) {
      var i :| 0 <= i < |others| && HasPair(hand, others[i]);
      assert others[i] in others;
    }
  }

  /** Forty is declared with the king and queen of trumps only. */
  lemma FortyMeaning(hand: seq<Card>, trump: Suit)
    ensures Forty(hand, trump) <==> HasPair(hand, trump)
  {
    if HasPair(hand, trump) {
      assert [trump][0] == trump;
    }
  }

  /** Every king-and-queen pair is exactly one of twenty or forty. */
  lemma TwentyOrForty(hand: seq<Card>, trump: Suit, s: Suit)
    requires HasPair(hand, s)
    ensures Twenty(hand, trump) || Forty(hand, trump)
    ensures s == trump ==> Forty(hand, trump)
    ensures s != trump ==> Twenty(hand, trump)
  {
    TwentyMeaning(hand, trump);
    FortyMeaning(hand, trump);
  }

  /** With hearts as trumps, queen and king of spades make twenty and not
      forty; queen and king of hearts make forty and not twenty. */
  lemma TwentyFortyExamples(spades: seq<Card>, hearts: seq<Card>)
    requires spades == [Card(Queen, Spades), Card(King, Spades)]
    requires hearts == [Card(Queen, Hearts), Card(King, Hearts)]
    ensures Twenty(spades, Hearts) && !Forty(spades, Hearts)
    ensures Forty(hearts, Hearts) && !Twenty(hearts, Hearts)
  {
    TwentyMeaning(spades, Hearts);
    FortyMeaning(spades, Hearts);
    TwentyMeaning(hearts, Hearts);
    FortyMeaning(hearts, Hearts);
    assert HasPair(spades, Spades);
    assert HasPair(hearts, Hearts);
    assert forall s: Suit :: HasPair(hearts, s) ==> s == Hearts;
  }
}
