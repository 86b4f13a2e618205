/** `BeloteDeckHand`: the predicates a Belote hand answers. Ranks are
    compared through their key in the Belote list
    7, 8, 9, Jack, Queen, King, 10, Ace. */
module BeloteHand {
  import opened Seqs
  import opened Cards

  /** `get_rank_key`. */
  function RankKey(c: Card): (k: nat)
    requires c.rank in BeloteRanks
    ensures k < 8 && BeloteRanks[k] == c.rank
  {
    Key(BeloteRanks, c.rank)
  }

  /** `select { |x| x.suit == suit }`: the cards of one suit, in hand order. */
  function OfSuit(hand: seq<Card>, suit: Suit): (r: seq<Card>)
    ensures forall c :: c in r <==> c in hand && c.suit == suit
    ensures forall c :: multiset(r)[c] == if c.suit == suit then multiset(hand)[c] else 0
  {
    if hand == [] then []
    else
      assert hand == [hand[0]] + hand[1..];
      (if hand[0].suit == suit then [hand[0]] else []) + OfSuit(hand[1..], suit)
  }

  /** `max_by { |x| get_rank_key(x) }` on a non-empty sequence: the first
      card of highest key in the rank list `ranks` (the Belote list here). */
  function MaxByKey(ranks: seq<Rank>, s: seq<Card>): (m: Card)
    requires s != [] && RanksIn(ranks, s)
    ensures m in s
    ensures forall c :: c in s ==> Key(ranks, c.rank) <= Key(ranks, m.rank)
  {
    if |s| == 1 then s[0]
    else
      var rest := MaxByKey(ranks, s[1..]);
      MaxByKeyStep(ranks, s, rest);
      if Key(ranks, rest.rank) > Key(ranks, s[0].rank) then rest else s[0]
  }

  /** The larger of the first card and the maximum of the others is the
      maximum of the whole sequence. */
  lemma MaxByKeyStep(ranks: seq<Rank>, s: seq<Card>, rest: Card)
    requires |s| > 1 && RanksIn(ranks, s)
    requires rest in s[1..] && forall c :: c in s[1..] ==> Key(ranks, c.rank) <= Key(ranks, rest.rank)
    ensures var m := if Key(ranks, rest.rank) > Key(ranks, s[0].rank) then rest else s[0];
            m in s && forall c :: c in s ==> Key(ranks, c.rank) <= Key(ranks, m.rank)
  {
    assert s == [s[0]] + s[1..];
  }

  /** `highest_of_suit(suit)`: the card of that suit with the highest rank
      key, or `nil` when the hand has no card of that suit. */
  function HighestOfSuit(hand: seq<Card>, suit: Suit): (r: Option<Card>)
    requires RanksIn(BeloteRanks, hand)
    ensures r == None <==> forall c :: c in hand ==> c.suit != suit
    ensures r.Some? ==> r.value in hand && r.value.suit == suit
    ensures r.Some? ==> forall c :: c in hand && c.suit == suit ==> RankKey(c) <= RankKey(r.value)
  {
    var same := OfSuit(hand, suit);
    if same == [] then None
    else
      assert same[0] in same;
      Some(MaxByKey(BeloteRanks, same))
  }

  /** `belote?`: some suit of `Hand::SUITS` has its queen and king in hand. */
  predicate IsBelote(hand: seq<Card>)
  {
    PairIn(hand, HandSuits)
  }

  /** `Hand::SUITS` lists every suit, so `belote?` asks about all four. */
  lemma BeloteAnySuit(hand: seq<Card>)
    ensures IsBelote(hand) <==> exists s: Suit :: HasPair(hand, s)
  {
    if exists s: Suit :: HasPair(hand, s) {
      var s: Suit :| HasPair(hand, s);
      assert HandSuits[SuitOrder(s)] == s;
    }
  }

  /** `sort`: a new sequence with the hand's cards in descending
      (suit, rank key) order; the hand itself is not changed. */
  function Sort(hand: seq<Card>): (r: seq<Card>)
    requires RanksIn(BeloteRanks, hand)
    ensures multiset(r) == multiset(hand) && |r| == |hand|
    ensures RanksIn(BeloteRanks, r) && Descending(BeloteRanks, r)
  {
    var r := SortDesc(BeloteRanks, hand);
    assert |r| == |multiset(r)| == |multiset(hand)| == |hand|;
    r
  }

  /** `are_n_numbers_consecutive(n, x)` for the window `x = s[i..i + n]`:
      all its cards have the suit of its first card, and each card's rank key
      is one more than the next card's. */
  predicate RunAt(s: seq<Card>, i: nat, n: nat)
    requires i + n <= |s| && RanksIn(BeloteRanks, s)
  {
    (forall j :: i <= j < i + n ==> s[j].suit == s[i].suit) &&
    (forall j :: i <= j < i + n - 1 ==> RankKey(s[j]) - RankKey(s[j + 1]) == 1)
  }

  /** `consecutive?(n)`: some window of `n` cards of the sorted hand is a run. */
  predicate HasRun(hand: seq<Card>, n: nat)
    requires RanksIn(BeloteRanks, hand)
  {
    var s := Sort(hand);
    exists i: nat :: i + n <= |s| && RunAt(s, i, n)
  }

  /** `consecutive?(length)`: scans the windows of the sorted hand
      (`each_cons`) and stops at the first run. */
  method Consecutive(hand: seq<Card>, n: nat) returns (found: bool)
    requires n > 0 && RanksIn(BeloteRanks, hand)
    ensures found <==> HasRun(hand, n)
  {
    var s := Sort(hand);
    var i: nat := 0;
    while i + n <= |s|
      invariant forall j: nat :: j < i && j + n <= |s| ==> !RunAt(s, j, n)
      decreases |s| - i
    {
      if RunAt(s, i, n) {
        return true;
      }
      i := i + 1;
    }
    return false;
  }

  /** `tierce?`: a run of three. */
  method Tierce(hand: seq<Card>) returns (b: bool)
    requires RanksIn(BeloteRanks, hand)
    ensures b <==> HasRun(hand, 3)
    ensures b ==> |hand| >= 3
  {
    b := Consecutive(hand, 3);
    if b { RunNeedsCards(hand, 3); }
  }

  /** `quarte?`: a run of four. */
  method Quarte(hand: seq<Card>) returns (b: bool)
    requires RanksIn(BeloteRanks, hand)
    ensures b <==> HasRun(hand, 4)
    ensures b ==> |hand| >= 4
  {
    b := Consecutive(hand, 4);
    if b { RunNeedsCards(hand, 4); }
  }

  /** `quint?`: a run of five. */
  method Quint(hand: seq<Card>) returns (b: bool)
    requires RanksIn(BeloteRanks, hand)
    ensures b <==> HasRun(hand, 5)
    ensures b ==> |hand| >= 5
  {
    b := Consecutive(hand, 5);
    if b { RunNeedsCards(hand, 5); }
  }

  /** A run is one suit and strictly consecutive keys: the `j`-th card of the
      window is `j` below the first. */
  lemma {:induction false} RunShape(s: seq<Card>, i: nat, n: nat)
    requires i + n <= |s| && RanksIn(BeloteRanks, s)
    ensures RunAt(s, i, n) <==>
            forall j :: i <= j < i + n ==> s[j].suit == s[i].suit && RankKey(s[j]) == RankKey(s[i]) - (j - i)
  {
    if RunAt(s, i, n) {
      var j := i;
      while j < i + n
        invariant i <= j <= i + n
        invariant forall k :: i <= k < j ==> RankKey(s[k]) == RankKey(s[i]) - (k - i)
      {
        if j > i {
          assert RankKey(s[j - 1]) - RankKey(s[j]) == 1;
        }
        j := j + 1;
      }
    }
    if forall j :: i <= j < i + n ==> s[j].suit == s[i].suit && RankKey(s[j]) == RankKey(s[i]) - (j - i) {
      forall j | i <= j < i + n - 1 ensures RankKey(s[j]) - RankKey(s[j + 1]) == 1 {
        assert RankKey(s[j + 1]) == RankKey(s[i]) - (j + 1 - i);
      }
    }
  }

  /** A hand shorter than the window has no run (`each_cons` yields nothing). */
  lemma RunNeedsCards(hand: seq<Card>, n: nat)
    requires RanksIn(BeloteRanks, hand) && HasRun(hand, n)
    ensures n <= |hand|
  {
  }

  /** A run in the sorted hand at a known window is a run of the hand. */
  lemma RunWitness(hand: seq<Card>, i: nat, n: nat)
    requires RanksIn(BeloteRanks, hand) && i + n <= |Sort(hand)| && RunAt(Sort(hand), i, n)
    ensures HasRun(hand, n)
  {
  }

  /** A hand with fewer than `n` cards has no run of `n`. */
  lemma ShortHandNoRun(hand: seq<Card>, n: nat)
    requires RanksIn(BeloteRanks, hand) && |hand| < n
    ensures !HasRun(hand, n)
  {
  }

  /** A run of `n` cards contains a run of `n - 1`: quint implies quarte,
      quarte implies tierce. */
  lemma RunShrinks(hand: seq<Card>, n: nat)
    requires n > 1 && RanksIn(BeloteRanks, hand) && HasRun(hand, n)
    ensures HasRun(hand, n - 1)
  {
    var s := Sort(hand);
    var i: nat :| i + n <= |s| && RunAt(s, i, n);
    assert RunAt(s, i, n - 1);
  }

  /** `count { |card| card.rank == rank }`: every copy of each of the four
      cards of that rank is counted. */
  function Count(hand: seq<Card>, r: Rank): (k: nat)
    ensures k <= |hand|
    ensures k == multiset(hand)[Card(r, Clubs)] + multiset(hand)[Card(r, Diamonds)] +
                 multiset(hand)[Card(r, Hearts)] + multiset(hand)[Card(r, Spades)]
  {
    if hand == [] then 0
    else
      assert hand == [hand[0]] + hand[1..];
      CardOfRank(hand[0], r);
      (if hand[0].rank == r then 1 else 0) + Count(hand[1..], r)
  }

  /** A card has rank `r` exactly when it is one of the four cards of `r`. */
  lemma CardOfRank(c: Card, r: Rank)
    ensures (if c.rank == r then 1 else 0) ==
            (if c == Card(r, Clubs) then 1 else 0) + (if c == Card(r, Diamonds) then 1 else 0) +
            (if c == Card(r, Hearts) then 1 else 0) + (if c == Card(r, Spades) then 1 else 0)
  {
    match c.suit
    case Clubs =>
    case Diamonds =>
    case Hearts =>
    case Spades =>
  }

  /** `carre_of?(rank)`: exactly four cards of that rank. */
  predicate CarreOf(hand: seq<Card>, r: Rank)
  {
    Count(hand, r) == 4
  }

  /** `carre_of_jacks?`. */
  predicate CarreOfJacks(hand: seq<Card>) { CarreOf(hand, Jack) }

  /** `carre_of_nines?`. */
  predicate CarreOfNines(hand: seq<Card>) { CarreOf(hand, Num(9)) }

  /** `carre_of_aces?`. */
  predicate CarreOfAces(hand: seq<Card>) { CarreOf(hand, Ace) }

  /** The cards of one rank that a hand holds. */
  ghost function OfRank(hand: seq<Card>, r: Rank): set<Card>
  {
    set c | c in hand && c.rank == r
  }

  /** The four cards of a rank. */
  ghost function AllOfRank(r: Rank): (f: set<Card>)
    ensures |f| == 4
  {
    {Card(r, Clubs), Card(r, Diamonds), Card(r, Hearts), Card(r, Spades)}
  }

  /** Every card of rank `r` is one of the four. */
  lemma InAllOfRank(c: Card)
    ensures c in AllOfRank(c.rank)
  {
    match c.suit
    case Clubs =>
    case Diamonds =>
    case Hearts =>
    case Spades =>
  }

  /** The cards of rank `r` in `[h] + t`: `h` if it has that rank, and
      those of `t`. */
  lemma OfRankCons(hand: seq<Card>, r: Rank)
    requires hand != []
    ensures OfRank(hand, r) == (if hand[0].rank == r then {hand[0]} else {}) + OfRank(hand[1..], r)
  {
    var first: set<Card> := if hand[0].rank == r then {hand[0]} else {};
    forall c | c in OfRank(hand, r) ensures c in first + OfRank(hand[1..], r) {
      var k :| 0 <= k < |hand| && hand[k] == c;
      if k > 0 { assert hand[1..][k - 1] == c; }
    }
    forall c | c in first + OfRank(hand[1..], r) ensures c in OfRank(hand, r) {
      if c !in first {
        var k :| 0 <= k < |hand[1..]| && hand[1..][k] == c;
        assert hand[k + 1] == c;
      }
    }
  }

  /** Without repeated cards, the count of a rank is the number of distinct
      cards of that rank. */
  lemma {:induction false} CountDistinct(hand: seq<Card>, r: Rank)
    requires Distinct(hand)
    ensures Count(hand, r) == |OfRank(hand, r)|
  {
    if hand == [] {
      assert OfRank(hand, r) == {};
    } else {
      var t := hand[1..];
      DistinctSub(hand, 1, |hand|);
      CountDistinct(t, r);
      OfRankCons(hand, r);
      assert forall k | 0 <= k < |t| :: t[k] == hand[k + 1];
      assert hand[0] !in t;
      var first: set<Card> := if hand[0].rank == r then {hand[0]} else {};
      assert first !! OfRank(t, r);
      assert |first + OfRank(t, r)| == |first| + |OfRank(t, r)|;
    }
  }

  /** A subset as large as its superset is the superset. */
  lemma SubsetOfSameSize<T>(a: set<T>, b: set<T>)
    requires a <= b && |a| == |b|
    ensures a == b
  {
    if x :| x in b && x !in a {
      assert a <= b - {x};
      assert |b - {x}| == |b| - 1;
      SubsetSize(a, b - {x});
    }
  }

  lemma {:induction false} SubsetSize<T>(a: set<T>, b: set<T>)
    requires a <= b
    ensures |a| <= |b|
  {
    assert b == a + (b - a);
  }

  /** In a hand without repeated cards (every dealt hand), `carre_of?(rank)`
      holds exactly when all four suits of that rank are in the hand. */
  lemma CarreAllSuits(hand: seq<Card>, r: Rank)
    requires Distinct(hand)
    ensures CarreOf(hand, r) <==> forall s: Suit :: Card(r, s) in hand
  {
    CountDistinct(hand, r);
    var have, all := OfRank(hand, r), AllOfRank(r);
    forall c | c in have ensures c in all {
      InAllOfRank(c);
    }
    if CarreOf(hand, r) {
      SubsetOfSameSize(have, all);
      forall s: Suit ensures Card(r, s) in hand {
        InAllOfRank(Card(r, s));
        assert Card(r, s) in have;
      }
    }
    if forall s: Suit :: Card(r, s) in hand {
      assert all <= have by {
        forall c | c in all ensures c in have {
          assert Card(r, c.suit) in hand;
        }
      }
      assert have == all;
    }
  }

  /** `carre_of_jacks?`, `carre_of_nines?` and `carre_of_aces?` on a hand
      without repeated cards: all four jacks, nines or aces are held. */
  lemma CarreNamedRanks(hand: seq<Card>)
    requires Distinct(hand)
    ensures CarreOfJacks(hand) <==> forall s: Suit :: Card(Jack, s) in hand
    ensures CarreOfNines(hand) <==> forall s: Suit :: Card(Num(9), s) in hand
    ensures CarreOfAces(hand) <==> forall s: Suit :: Card(Ace, s) in hand
  {
    CarreAllSuits(hand, Jack);
    CarreAllSuits(hand, Num(9));
    CarreAllSuits(hand, Ace);
  }

  /** `[Queen of Spades, King of Spades, 9 of Diamonds]` is a belote;
      `[Queen of Spades, King of Hearts]` is not. */
  lemma BeloteExamples()
    ensures IsBelote([Card(Queen, Spades), Card(King, Spades), Card(Num(9), Diamonds)])
    ensures !IsBelote([Card(Queen, Spades), Card(King, Hearts)])
  {
    assert HasPair([Card(Queen, Spades), Card(King, Spades), Card(Num(9), Diamonds)], HandSuits[3]);
  }

  /** Four jacks are a carré of jacks; three are not. */
  lemma CarreExamples()
    ensures CarreOfJacks([Card(Jack, Spades), Card(Jack, Hearts), Card(Jack, Diamonds), Card(Jack, Clubs)])
    ensures !CarreOfJacks([Card(Jack, Spades), Card(Jack, Hearts), Card(Ace, Diamonds), Card(Jack, Clubs)])
  {
  }

  /** The Belote keys of king, queen and jack: 5, 4, 3. */
  lemma CourtKeys(h: seq<Card>, suit: Suit)
    requires |h| == 3 && h[0] == Card(King, suit) && h[1] == Card(Queen, suit) && h[2] == Card(Jack, suit)
    ensures RanksIn(BeloteRanks, h)
    ensures RankKey(h[0]) == 5 && RankKey(h[1]) == 4 && RankKey(h[2]) == 3
  {
    assert Distinct(BeloteRanks) by { assert BeloteRanks == Ranks(Belote); }
    assert BeloteRanks[5] == King && BeloteRanks[4] == Queen && BeloteRanks[3] == Jack;
    KeyOfIndex(BeloteRanks, 5);
    KeyOfIndex(BeloteRanks, 4);
    KeyOfIndex(BeloteRanks, 3);
  }

  /** King, queen and jack of one suit are already in descending order. */
  lemma CourtDescending(h: seq<Card>, suit: Suit)
    requires |h| == 3 && h[0] == Card(King, suit) && h[1] == Card(Queen, suit) && h[2] == Card(Jack, suit)
    ensures RanksIn(BeloteRanks, h) && Descending(BeloteRanks, h)
  {
    CourtKeys(h, suit);
    assert Above(BeloteRanks, h[0], h[1]) && Above(BeloteRanks, h[0], h[2]) && Above(BeloteRanks, h[1], h[2]);
  }

  /** King, queen and jack of one suit are a tierce but not a quarte: three
      cards hold no window of four. */
  lemma TierceExample(h: seq<Card>, suit: Suit)
    requires |h| == 3 && h[0] == Card(King, suit) && h[1] == Card(Queen, suit) && h[2] == Card(Jack, suit)
    ensures RanksIn(BeloteRanks, h) && HasRun(h, 3) && !HasRun(h, 4)
  {
    CourtKeys(h, suit);
    CourtDescending(h, suit);
    SortDescFixpoint(BeloteRanks, h);
    assert RunAt(h, 0, 3) by {
      assert RankKey(h[0]) - RankKey(h[1]) == 1 && RankKey(h[1]) - RankKey(h[2]) == 1;
    }
    RunWitness(h, 0, 3);
    ShortHandNoRun(h, 4);
  }
}
