/** Cards, suits, the three variants' rank lists, the full deck built from a
    rank list, and the (suit, rank) ordering that `Deck#sort` and
    `BeloteDeckHand#sort` use. */
module Cards {
  import opened Seqs

  /** Ruby symbols compare alphabetically, so the declaration order here is
      the order in which `sort_by` sees suits: clubs < diamonds < hearts < spades. */
  datatype Suit = Clubs | Diamonds | Hearts | Spades

  /** A rank label: the numerals 2..10 and the four named ranks. */
  datatype Rank = Num(n: nat) | Jack | Queen | King | Ace

  datatype Card = Card(rank: Rank, suit: Suit)

  /** `Card#==`: two cards are equal when rank and suit are. */
  function SameCard(a: Card, b: Card): (r: bool)
    ensures r <==> a == b
  {
    a.rank == b.rank && a.suit == b.suit
  }

  /** The place of a suit in the alphabetical order of Ruby symbols. */
  function SuitOrder(s: Suit): (k: nat)
    ensures k < 4
  {
    match s
    case Clubs => 0
    case Diamonds => 1
    case Hearts => 2
    case Spades => 3
  }

  /** `Deck::SUITS`, the order in which a fresh deck lists the suits of a rank. */
  const DeckSuits: seq<Suit> := [Spades, Hearts, Diamonds, Clubs]

  /** `Hand::SUITS`, the suits the hand predicates range over. */
  const HandSuits: seq<Suit> := [Clubs, Diamonds, Hearts, Spades]

  /** `Deck` itself and its three subclasses. A plain `Deck` uses the War ranks. */
  datatype Variant = Plain | War | Belote | SixtySix

  const WarRanks: seq<Rank> :=
    [Num(2), Num(3), Num(4), Num(5), Num(6), Num(7), Num(8), Num(9), Num(10), Jack, Queen, King, Ace]
  const BeloteRanks: seq<Rank> := [Num(7), Num(8), Num(9), Jack, Queen, King, Num(10), Ace]
  const SixtySixRanks: seq<Rank> := [Num(9), Jack, Queen, King, Num(10), Ace]

  /** The `@ranks` list each class installs in its constructor, lowest first. */
  function Ranks(v: Variant): (ranks: seq<Rank>)
    ensures Distinct(ranks)
  {
    match v
    case Plain => WarRanks
    case War => WarRanks
    case Belote => BeloteRanks
    case SixtySix => SixtySixRanks
  }

  /** `DECK_SIZE` of the three subclasses; a plain deck has the War size. */
  function DeckSize(v: Variant): (n: nat)
    ensures n == 4 * |Ranks(v)|
  {
    match v
    case Plain => 52
    case War => 52
    case Belote => 32
    case SixtySix => 24
  }

  /** `CARDS_IN_HAND` of the three subclasses (a plain deck deals everything). */
  function HandSize(v: Variant): (n: nat)
    requires v != Plain
    ensures 0 < n < DeckSize(v)
  {
    match v
    case War => 26
    case Belote => 8
    case SixtySix => 6
  }

  /** The four cards of one rank, in `Deck::SUITS` order. */
  function RankRow(r: Rank): (row: seq<Card>)
    ensures |row| == 4
    ensures forall j :: 0 <= j < 4 ==> row[j] == Card(r, DeckSuits[j])
  {
    [Card(r, Spades), Card(r, Hearts), Card(r, Diamonds), Card(r, Clubs)]
  }

  /** `generate_all_cards`: `ranks.product(SUITS)`, one row of four suits per rank. */
  function FullDeck(ranks: seq<Rank>): (d: seq<Card>)
    ensures |d| == 4 * |ranks|
  {
    if ranks == [] then [] else RankRow(ranks[0]) + FullDeck(ranks[1..])
  }

  /** The fresh deck is rank-major: card `4 * i + j` has the `i`-th rank and
      the `j`-th suit of `Deck::SUITS`. */
  lemma {:induction false} FullDeckAt(ranks: seq<Rank>, i: nat, j: nat)
    requires i < |ranks| && j < 4
    ensures FullDeck(ranks)[4 * i + j] == Card(ranks[i], DeckSuits[j])
  {
    if i > 0 {
      FullDeckAt(ranks[1..], i - 1, j);
      assert FullDeck(ranks) == RankRow(ranks[0]) + FullDeck(ranks[1..]);
    }
  }

  /** The fresh deck holds exactly the cards whose rank is in the list. */
  lemma {:induction false} FullDeckMembers(ranks: seq<Rank>, c: Card)
    ensures c in FullDeck(ranks) <==> c.rank in ranks
  {
    if ranks != [] {
      FullDeckMembers(ranks[1..], c);
      assert ranks == [ranks[0]] + ranks[1..];
      var row := RankRow(ranks[0]);
      assert c in row <==> c.rank == ranks[0] by {
        if c.rank == ranks[0] {
          match c.suit
          case Spades => assert row[0] == c;
          case Hearts => assert row[1] == c;
          case Diamonds => assert row[2] == c;
          case Clubs => assert row[3] == c;
        }
      }
    }
  }

  /** A rank list without repetitions yields pairwise-distinct cards. */
  lemma {:induction false} FullDeckDistinct(ranks: seq<Rank>)
    requires Distinct(ranks)
    ensures Distinct(FullDeck(ranks))
  {
    if ranks != [] {
      var rest := ranks[1..];
      DistinctSub(ranks, 1, |ranks|);
      FullDeckDistinct(rest);
      var row, tail := RankRow(ranks[0]), FullDeck(rest);
      assert ranks[0] !in rest;
      forall c | c in tail ensures c.rank != ranks[0] {
        FullDeckMembers(rest, c);
      }
      var d := row + tail;
      forall i, j | 0 <= i < j < |d| ensures d[i] != d[j] {
        if j < 4 {
        } else if i < 4 {
          assert d[i] in row && d[j] == tail[j - 4] && tail[j - 4] in tail;
        } else {
          assert d[i] == tail[i - 4] && d[j] == tail[j - 4];
        }
      }
    }
  }

  /** Every variant's fresh deck has `DECK_SIZE` pairwise-distinct cards:
      52 for War, 32 for Belote, 24 for SixtySix. */
  lemma FreshDeckShape(v: Variant)
    ensures |FullDeck(Ranks(v))| == DeckSize(v)
    ensures Distinct(FullDeck(Ranks(v)))
  {
    FullDeckDistinct(Ranks(v));
  }

  /** `@ranks_ascending.key(rank)`: the index of a rank in the variant's list. */
  function Key(ranks: seq<Rank>, r: Rank): (k: nat)
    requires r in ranks
    ensures k < |ranks| && ranks[k] == r
  {
    if ranks[0] == r then 0 else 1 + Key(ranks[1..], r)
  }

  /** In a list without repetitions the key of the `i`-th rank is `i`. */
  lemma KeyOfIndex(ranks: seq<Rank>, i: nat)
    requires Distinct(ranks) && i < |ranks|
    ensures Key(ranks, ranks[i]) == i
  {
  }

  /** Every card's rank belongs to the rank list, so its key exists. */
  predicate RanksIn(ranks: seq<Rank>, s: seq<Card>)
  {
    forall c :: c in s ==> c.rank in ranks
  }

  /** Ruby's comparison of the `[suit, key]` arrays that `sort_by` builds,
      read backwards because of the `reverse`: `a` may come before `b` in the
      sorted deck when its suit is later in symbol order, or the suit is the
      same and its rank key is not lower. */
  predicate Above(ranks: seq<Rank>, a: Card, b: Card)
    requires a.rank in ranks && b.rank in ranks
  {
    SuitOrder(a.suit) > SuitOrder(b.suit) ||
    (a.suit == b.suit && Key(ranks, a.rank) >= Key(ranks, b.rank))
  }

  /** Two cards that are each above the other are the same card, so ties in
      `sort_by` are only between equal cards. */
  lemma AboveAntisymmetric(ranks: seq<Rank>, a: Card, b: Card)
    requires a.rank in ranks && b.rank in ranks
    requires Above(ranks, a, b) && Above(ranks, b, a)
    ensures a == b
  {
    assert Key(ranks, a.rank) == Key(ranks, b.rank);
  }

  /** The order in which `sort_by(...).reverse` leaves the cards. */
  predicate Descending(ranks: seq<Rank>, s: seq<Card>)
    requires RanksIn(ranks, s)
  {
    forall i, j :: 0 <= i < j < |s| ==> Above(ranks, s[i], s[j])
  }

  /** A card that is above every card of a descending sequence can be put
      in front of it. */
  lemma DescendingCons(ranks: seq<Rank>, h: Card, t: seq<Card>)
    requires h.rank in ranks && RanksIn(ranks, t) && Descending(ranks, t)
    requires forall x :: x in t ==> Above(ranks, h, x)
    ensures RanksIn(ranks, [h] + t) && Descending(ranks, [h] + t)
  {
    var d := [h] + t;
    forall i, j | 0 <= i < j < |d| ensures Above(ranks, d[i], d[j]) {
      assert d[j] == t[j - 1] && t[j - 1] in t;
      if i > 0 {
        assert d[i] == t[i - 1];
      }
    }
  }

  /** The first card of a descending sequence is above all of its cards. */
  lemma HeadAbove(ranks: seq<Rank>, s: seq<Card>, x: Card)
    requires RanksIn(ranks, s) && Descending(ranks, s) && x in s
    ensures Above(ranks, s[0], x)
  {
    var k :| 0 <= k < |s| && s[k] == x;
    if k > 0 {
      assert Above(ranks, s[0], s[k]);
    }
  }

  /** The rest of a descending sequence is descending. */
  lemma DescendingTail(ranks: seq<Rank>, s: seq<Card>)
    requires RanksIn(ranks, s) && Descending(ranks, s) && s != []
    ensures RanksIn(ranks, s[1..]) && Descending(ranks, s[1..])
  {
    forall c | c in s[1..] ensures c.rank in ranks {
      assert c in s;
    }
    forall i, j | 0 <= i < j < |s[1..]| ensures Above(ranks, s[1..][i], s[1..][j]) {
      assert s[1..][i] == s[i + 1] && s[1..][j] == s[j + 1];
    }
  }

  /** A card above the first card of a descending sequence is above all of it. */
  lemma AboveAll(ranks: seq<Rank>, c: Card, s: seq<Card>)
    requires c.rank in ranks && RanksIn(ranks, s) && Descending(ranks, s)
    requires s != [] && Above(ranks, c, s[0])
    ensures forall x :: x in s ==> Above(ranks, c, x)
  {
    forall x | x in s ensures Above(ranks, c, x) {
      HeadAbove(ranks, s, x);
    }
  }

  /** When `c` goes behind the first card `s[0]`, everything inserted after
      `s[0]` is below it. */
  lemma BelowHead(ranks: seq<Rank>, c: Card, s: seq<Card>, t: seq<Card>)
    requires c.rank in ranks && RanksIn(ranks, s) && Descending(ranks, s)
    requires s != [] && !Above(ranks, c, s[0])
    requires RanksIn(ranks, t) && multiset(t) == multiset(s[1..]) + multiset{c}
    ensures forall x :: x in t ==> Above(ranks, s[0], x)
  {
    forall x | x in t ensures Above(ranks, s[0], x) {
      assert x in multiset(t);
      if x != c {
        assert x in multiset(s[1..]);
        assert x in s[1..];
        assert x in s;
        HeadAbove(ranks, s, x);
      }
    }
  }

  /** Places `c` in front of the first card it is above. */
  function Insert(ranks: seq<Rank>, c: Card, s: seq<Card>): (r: seq<Card>)
    requires c.rank in ranks && RanksIn(ranks, s) && Descending(ranks, s)
    ensures multiset(r) == multiset(s) + multiset{c}
    ensures RanksIn(ranks, r) && Descending(ranks, r)
  {
    if s == [] then [c]
    else if Above(ranks, c, s[0]) then
      AboveAll(ranks, c, s);
      DescendingCons(ranks, c, s);
      [c] + s
    else
      DescendingTail(ranks, s);
      var t := Insert(ranks, c, s[1..]);
      BelowHead(ranks, c, s, t);
      DescendingCons(ranks, s[0], t);
      assert s == [s[0]] + s[1..];
      [s[0]] + t
  }

  /** `sort_by { |x| [x.suit, key(x.rank)] }.reverse`: the same cards, in
      descending (suit, rank key) order. */
  function SortDesc(ranks: seq<Rank>, s: seq<Card>): (r: seq<Card>)
    requires RanksIn(ranks, s)
    ensures multiset(r) == multiset(s)
    ensures RanksIn(ranks, r) && Descending(ranks, r)
  {
    if s == [] then []
    else
      assert s == [s[0]] + s[1..];
      Insert(ranks, s[0], SortDesc(ranks, s[1..]))
  }

  /** Two descending arrangements of the same cards are equal, so the result
      does not depend on how `sort_by` breaks ties. */
  lemma {:induction false} DescendingUnique(ranks: seq<Rank>, a: seq<Card>, b: seq<Card>)
    requires RanksIn(ranks, a) && RanksIn(ranks, b)
    requires Descending(ranks, a) && Descending(ranks, b)
    requires multiset(a) == multiset(b)
    ensures a == b
  {
    assert |b| == |a| by { assert |multiset(a)| == |a| && |multiset(b)| == |b|; }
    if a != [] {
      assert a[0] in multiset(b) && b[0] in multiset(a);
      HeadAbove(ranks, b, a[0]);
      HeadAbove(ranks, a, b[0]);
      AboveAntisymmetric(ranks, a[0], b[0]);
      assert a == [a[0]] + a[1..] && b == [b[0]] + b[1..];
      assert multiset(a[1..]) == multiset(b[1..]) by {
        assert multiset(a) == multiset{a[0]} + multiset(a[1..]);
        assert multiset(b) == multiset{b[0]} + multiset(b[1..]);
        assert multiset(a[1..]) == multiset(a) - multiset{a[0]};
        assert multiset(b[1..]) == multiset(b) - multiset{b[0]};
      }
      DescendingTail(ranks, a);
      DescendingTail(ranks, b);
      DescendingUnique(ranks, a[1..], b[1..]);
    }
  }

  /** Sorting an already sorted sequence changes nothing. */
  lemma SortDescFixpoint(ranks: seq<Rank>, s: seq<Card>)
    requires RanksIn(ranks, s) && Descending(ranks, s)
    ensures SortDesc(ranks, s) == s
  {
    DescendingUnique(ranks, SortDesc(ranks, s), s);
  }

  /** Sorting twice is sorting once. */
  lemma SortDescIdempotent(ranks: seq<Rank>, s: seq<Card>)
    requires RanksIn(ranks, s)
    ensures SortDesc(ranks, SortDesc(ranks, s)) == SortDesc(ranks, s)
  {
    SortDescFixpoint(ranks, SortDesc(ranks, s));
  }

  /** Both the queen and the king of `suit` are in the hand. */
  predicate HasPair(hand: seq<Card>, suit: Suit)
  {
    Card(Queen, suit) in hand && Card(King, suit) in hand
  }

  /** `pair_of_queen_and_king?(suits)` and `belote?`: some listed suit has its pair. */
  predicate PairIn(hand: seq<Card>, suits: seq<Suit>)
  {
    exists i :: 0 <= i < |suits| && HasPair(hand, suits[i])
  }
}
