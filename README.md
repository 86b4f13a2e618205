# Card decks and snake helpers in Dafny

This project models two small Ruby libraries and proves properties of them.

**Cards (`solutions/04.rb`).** A card is a rank and a suit. A deck is an ordered,
mutable list of cards, built as "rank list x four suits". It can draw and peek at
either end, shuffle, sort in place and deal. Three variants fix the rank list and
the hand size: War (2..Ace, 13 ranks, hands of 26), Belote (7, 8, 9, J, Q, K, 10, A;
hands of 8) and Sixty-Six (9, J, Q, K, 10, A; hands of 6). A Belote hand answers
`highest_of_suit`, `belote?`, the runs `tierce?`/`quarte?`/`quint?` and the carré
predicates. A Sixty-Six hand answers `twenty?` and `forty?`. A War hand can play
a random card and says whether cards may be played face up.

**Snake (`solutions/02.rb`).** A snake is a non-empty list of `[x, y]` cells with
its head last. The helpers grow and move it, test the grid bounds, look for
obstacles and danger, and pick a free cell for new food.

Modules:

- `Seqs` (`seqs.dfy`): `Option` for Ruby's `nil`-or-value results. Ruby's Array
  difference `a - b` as `Minus`, which removes every copy. `delete(x)` is
  `Minus(s, [x])`. The slice `a[0..n-1]` is `Take`.
- `Cards` (`cards.dfy`): suits, ranks, cards, the rank lists, the fresh deck, rank
  keys and the sort order.
- `Decks` (`decks.dfy`): class `Deck` holds the `@cards` field as a `seq<Card>` and
  a `variant` that stands for the Ruby subclass. Class `WarHand` is
  `WarDeckHand`, the one hand the code changes in place.
- `BeloteHand` (`belote.dfy`) and `SixtySixHand` (`sixty_six.dfy`): the hand
  predicates, as functions on the hand's card sequence. The code never changes
  these hands after the deal.
- `Snake` (`snake.dfy`): the grid helpers, as pure functions.

Modelling choices:

- A rank is a label (`Num(7)`, `Jack`, ...). Its order key is its index in the
  variant's rank list (`@ranks_ascending.key(rank)`, `Cards.Key`). So "consecutive"
  means a key difference of exactly 1.
- Suits compare like Ruby symbols: clubs < diamonds < hearts < spades.
  `sort_by { [suit, key] }` followed by `reverse` gives descending (suit, key)
  order. This is `Cards.Above` / `Cards.Descending`. `Cards.DescendingUnique`
  shows that the sorted result does not depend on how the (unstable) Ruby sort
  breaks ties.
- The code raises no errors. Drawing or peeking at an empty deck gives `nil`,
  and a deal from a short deck hands over whatever remains. The model does the
  same: `None`, and `Take`.
- Randomness becomes a choice the contract does not fix. `shuffle!` is any
  rearrangement with the same multiset. `play_card` removes some card of the hand.
  `new_food`'s `sample` becomes an index parameter `pick`, and a lemma shows that
  every free cell can be chosen.

## Model

| member | source | states |
|---|---|---|
| `Cards.SameCard` | solutions/04.rb:6-8 | `Card#==` holds exactly when the two cards are the same value |
| `Cards.Ranks` | solutions/04.rb:21 | each variant's rank list has no repeated rank, so every rank has one key |
| `Cards.DeckSize` | solutions/04.rb:85 | DECK_SIZE is four cards per rank of the variant's list: 52, 32 (line 106), 24 (line 195) |
| `Cards.HandSize` | solutions/04.rb:86 | CARDS_IN_HAND (26, 8 at line 107, 6 at line 196) is positive and smaller than DECK_SIZE |
| `Cards.FullDeck` | solutions/04.rb:16-18 | `ranks.product(SUITS)` has four cards per rank |
| `Cards.Above` | solutions/04.rb:55 | `a` may precede `b` after `sort_by { [suit, key] }.reverse`: a later suit, or the same suit and a key not lower |
| `Cards.Descending` | solutions/04.rb:54-56 | every card is `Above` every later card |
| `Cards.HasPair` | solutions/04.rb:223-230 | the queen and the king of the suit are both in the hand |
| `Cards.PairIn` | solutions/04.rb:223-230 | `pair_of_queen_and_king?(allowed_suits)`: some allowed suit has its pair in the hand |
| `Cards.FullDeckAt` | solutions/04.rb:16-18 | the fresh deck is rank-major: card `4*i+j` has the i-th rank and the j-th suit of spades, hearts, diamonds, clubs |
| `Cards.FullDeckMembers` | solutions/04.rb:17 | a card is in the fresh deck exactly when its rank is in the rank list |
| `Cards.FullDeckDistinct` | solutions/04.rb:17 | a rank list without repeats gives pairwise-distinct cards |
| `Cards.FreshDeckShape` | solutions/04.rb:20-24 | a fresh deck has DECK_SIZE distinct cards: 52 (War), 32 (Belote), 24 (Sixty-Six) |
| `Cards.Key` | solutions/04.rb:22 | the key of a rank is a position in the rank list that holds that rank |
| `Cards.KeyOfIndex` | solutions/04.rb:22 | in a list without repeats, the key of the i-th rank is i |
| `Cards.AboveAntisymmetric` | solutions/04.rb:55 | two cards that each sort at or before the other are equal, so ties occur only between equal cards |
| `Cards.SortDesc` | solutions/04.rb:54-56 | sorting keeps the same multiset of cards and leaves them in descending (suit, rank key) order |
| `Cards.DescendingUnique` | solutions/04.rb:55 | two descending arrangements of the same multiset are identical |
| `Cards.SortDescFixpoint` | solutions/04.rb:54-56 | sorting an already sorted sequence leaves it unchanged |
| `Cards.SortDescIdempotent` | solutions/04.rb:54-56 | sorting twice gives the same result as sorting once |
| `Seqs.Minus` | solutions/04.rb:90 | `a - b` keeps exactly the elements of `a` that are not in `b`, in their order in `a`, and is never longer than `a` |
| `Seqs.MinusCounts` | solutions/04.rb:90 | `a - b` keeps every copy of a kept element: an element of `b` occurs zero times, any other as often as in `a` |
| `Seqs.Take` | solutions/04.rb:89 | `@cards[0..N-1]` is the prefix of length min(N, size) |
| `Seqs.MinusPrefix` | solutions/04.rb:89-90 | if no card repeats, removing a prefix's cards leaves exactly the suffix, in order |
| `Seqs.DeleteOnce` | solutions/04.rb:97 | `delete` of a card that occurs once drops the size by one and removes exactly that card from the multiset |
| `Seqs.DistinctPermutation` | solutions/04.rb:50-52 | a rearrangement of a sequence without repeats has no repeats |
| `Decks.DealSplits` | solutions/04.rb:88-92 | if no card repeats, the dealt hand and the remaining deck split the deck: hand followed by rest is the deck, same multiset, sizes add up, neither has repeats |
| `Decks.DealDropsRepeats` | solutions/04.rb:90 | with a repeated card, the difference removes every copy: dealing one card from `[c, c]` leaves an empty deck |
| `Decks.FreshDeal` | solutions/04.rb:84-92 | a deal from a fresh variant deck gives CARDS_IN_HAND cards and leaves DECK_SIZE minus CARDS_IN_HAND |
| `Decks.Deck.constructor` | solutions/04.rb:20-24 | an empty (default) card list builds the full deck of the variant's ranks; any other list is used as given |
| `Decks.Deck.Size` | solutions/04.rb:30-32 | the number of cards left |
| `Decks.Deck.TopCard` | solutions/04.rb:42-44 | the first card, or `nil` exactly when the deck is empty |
| `Decks.Deck.BottomCard` | solutions/04.rb:46-48 | the last card, or `nil` exactly when the deck is empty |
| `Decks.Deck.DrawTop` | solutions/04.rb:34-36 | returns what `top_card` showed, removes the first card, keeps the rest in order, size drops by one; an empty deck gives `nil` and stays empty |
| `Decks.Deck.DrawBottom` | solutions/04.rb:38-40 | returns what `bottom_card` showed, removes the last card, keeps the rest in order, size drops by one; an empty deck gives `nil` and stays empty |
| `Decks.Deck.Shuffle` | solutions/04.rb:50-52 | the cards become a rearrangement of the same multiset; no repeats appear |
| `Decks.Deck.Sort` | solutions/04.rb:54-56 | the cards become the sorted sequence: same multiset, descending (suit, rank key) order, no repeats appear |
| `Decks.Deck.Deal` | solutions/04.rb:62-64 | the base deal's hand holds exactly the deck's cards, and the deck is not changed |
| `Decks.Deck.DealHand` | solutions/04.rb:115-119 | Belote (and Sixty-Six, lines 204-208): the hand is the first min(N, size) cards and the deck keeps `cards - hand`; if no card repeats, hand followed by deck is the old deck |
| `Decks.Deck.DealWar` | solutions/04.rb:88-92 | a new War hand gets the first min(26, size) cards, and the deck keeps the difference; if no card repeats, the sizes add up |
| `Decks.WarHand.constructor` | solutions/04.rb:70-73 | a hand holds the cards it is given |
| `Decks.WarHand.Size` | solutions/04.rb:75-77 | the number of cards in the hand |
| `Decks.WarHand.PlayCard` | solutions/04.rb:96-98 | an empty hand gives `nil`. Otherwise some hand card is returned and every copy of it is removed; with no repeats, one card leaves the hand |
| `Decks.WarHand.AllowFaceUp` | solutions/04.rb:100-102 | holds exactly when at most three cards are left |
| `BeloteHand.RankKey` | solutions/04.rb:124-126 | the Belote key of a card is below 8 and names the card's rank in the Belote list |
| `BeloteHand.OfSuit` | solutions/04.rb:129 | the selected cards are exactly the hand's cards of that suit, each card of that suit as many times as in the hand |
| `BeloteHand.MaxByKey` | solutions/04.rb:130 | `max_by` returns a card of the sequence whose key is not below any other card's |
| `BeloteHand.HighestOfSuit` | solutions/04.rb:128-131 | `nil` exactly when no card has that suit; otherwise a hand card of that suit whose key is at least that of every hand card of the suit |
| `BeloteHand.BeloteAnySuit` | solutions/04.rb:133-140 | `belote?` holds exactly when some suit has both its queen and its king in the hand |
| `BeloteHand.BeloteExamples` | solutions/04.rb:133-140 | Q and K of spades with 9 of diamonds is a belote; Q of spades with K of hearts is not |
| `BeloteHand.Sort` | solutions/04.rb:142-144 | returns the hand's cards (same multiset and size) in descending (suit, rank key) order, as a new value |
| `BeloteHand.IsBelote` | solutions/04.rb:133-140 | `belote?`: a pair in one of `Hand::SUITS` |
| `BeloteHand.RunAt` | solutions/04.rb:184-191 | `are_n_numbers_consecutive`: the window's cards share the first card's suit and each key is one more than the next |
| `BeloteHand.HasRun` | solutions/04.rb:176-182 | `consecutive?`: some window of n cards of the sorted hand is a run |
| `BeloteHand.CarreOf` | solutions/04.rb:172-174 | `carre_of?`: exactly four cards of the rank |
| `BeloteHand.CarreOfJacks` | solutions/04.rb:158-160 | the carré of jacks |
| `BeloteHand.CarreOfNines` | solutions/04.rb:162-164 | the carré of nines |
| `BeloteHand.CarreOfAces` | solutions/04.rb:166-168 | the carré of aces |
| `BeloteHand.Consecutive` | solutions/04.rb:176-182 | the window scan returns true exactly when some window of n cards of the sorted hand is a run |
| `BeloteHand.RunShape` | solutions/04.rb:184-191 | a window is a run exactly when all its cards share the first card's suit and the j-th card's key is j below the first |
| `BeloteHand.Tierce` | solutions/04.rb:146-148 | `tierce?` holds exactly when the sorted hand has a run of 3, which needs at least 3 cards |
| `BeloteHand.Quarte` | solutions/04.rb:150-152 | `quarte?` holds exactly when the sorted hand has a run of 4, which needs at least 4 cards |
| `BeloteHand.Quint` | solutions/04.rb:154-156 | `quint?` holds exactly when the sorted hand has a run of 5, which needs at least 5 cards |
| `BeloteHand.RunNeedsCards` | solutions/04.rb:177 | a hand shorter than the window has no run |
| `BeloteHand.RunShrinks` | solutions/04.rb:184-191 | a run of n cards contains a run of n-1: quint implies quarte, and quarte implies tierce |
| `BeloteHand.TierceExample` | solutions/04.rb:146-152 | K, Q, J of one suit is a tierce and not a quarte |
| `BeloteHand.Count` | solutions/04.rb:173 | the count of a rank is the number of copies in the hand of its clubs, diamonds, hearts and spades cards, and at most the hand size |
| `BeloteHand.CarreAllSuits` | solutions/04.rb:172-174 | if no card repeats, exactly four cards of a rank means all four suits of that rank are held, and conversely |
| `BeloteHand.CarreNamedRanks` | solutions/04.rb:158-168 | the carré of jacks, nines or aces holds exactly when all four jacks, nines or aces are in a hand without repeats |
| `BeloteHand.CarreExamples` | solutions/04.rb:158-160 | four jacks are a carré of jacks; three jacks and an ace are not |
| `SixtySixHand.Twenty` | solutions/04.rb:213-215 | `twenty?`: a pair in one of `SUITS - [trump_suit]` |
| `SixtySixHand.Forty` | solutions/04.rb:217-219 | `forty?`: a pair in `[trump_suit]` |
| `SixtySixHand.TwentyMeaning` | solutions/04.rb:213-215 | `twenty?(t)` holds exactly when some suit other than t has its queen and king in the hand |
| `SixtySixHand.FortyMeaning` | solutions/04.rb:217-219 | `forty?(t)` holds exactly when the trump suit t has its queen and king in the hand |
| `SixtySixHand.TwentyOrForty` | solutions/04.rb:223-230 | every queen-king pair in the hand counts as forty when it is in trumps and as twenty otherwise |
| `SixtySixHand.TwentyFortyExamples` | solutions/04.rb:213-219 | with hearts as trumps, Q and K of spades make twenty and not forty; Q and K of hearts make forty and not twenty |
| `Snake.SnakeHead` | solutions/02.rb:28-30 | the head is the last segment and belongs to the snake |
| `Snake.PositionInFront` | solutions/02.rb:32-37 | the next cell is the head moved by the direction, component by component |
| `Snake.Grow` | solutions/02.rb:5-7 | the old snake unchanged, plus one new head one step ahead; the length grows by one |
| `Snake.Move` | solutions/02.rb:1-3 | the length is kept; all segments but the tail survive, in order; the new head is one step ahead |
| `Snake.AllPositions` | solutions/02.rb:10-11 | the product lists exactly the cells that are `in_bounds?` |
| `Snake.FreeCells` | solutions/02.rb:12 | the free cells are exactly the in-bounds cells that hold neither food nor the snake |
| `Snake.NewFood` | solutions/02.rb:9-15 | `nil` exactly when every in-bounds cell holds food or snake; otherwise an in-bounds cell with neither |
| `Snake.NewFoodReachesEveryFreeCell` | solutions/02.rb:14 | every free cell is the result for some random choice |
| `Snake.NewFoodAt` | solutions/02.rb:14 | choice k picks the k-th free cell |
| `Snake.InBounds` | solutions/02.rb:39-45 | both coordinates lie between 0 and the dimension minus one |
| `Snake.BodyAhead` | solutions/02.rb:47-49 | the cell is one of the snake's segments |
| `Snake.ObstacleAhead` | solutions/02.rb:17-21 | the cell in front of the head is off the grid or on the snake |
| `Snake.Danger` | solutions/02.rb:23-26 | an obstacle ahead now, or after one move in the same direction |
| `Snake.ObstacleIffNotFree` | solutions/02.rb:17-21 | `obstacle_ahead?` holds exactly when the next cell is off the grid or on the snake, tail included |
| `Snake.DangerCells` | solutions/02.rb:23-26 | `danger?` holds exactly when head+d is off the grid or on the snake, or head+2d is off the grid or on a segment other than the current tail |
| `Snake.StandingStill` | solutions/02.rb:47-49 | with direction (0, 0) the next cell is the head itself, so there is always an obstacle and danger |

## Left out

- `solutions/01.rb` (currency conversion) is not part of this model. It is floating-point arithmetic with `round(2)`.
- The randomness of `shuffle!`, `play_card`'s `sample` and `new_food`'s `sample`: the model says which results are possible, not how likely each one is.
- `Card#to_s`, `Deck#to_s`, `Hand#to_s`: display text only.
- `include Enumerable` and `Deck#each`: iteration plumbing with no behaviour of its own.
- Decks.Deck.constructor: `initialize` stores the caller's own array (`@cards = cards`, lines 23, 112 and 201), so `draw_*` (`delete_at`), `shuffle!` and `sort_by!`/`reverse!` also change the caller's array until a variant `deal` assigns a new one to `@cards`. Here the deck holds a copy of the sequence, and the caller never sees those changes.
- The base `Deck#deal` returns a `Hand` that shares the deck's array object. Here the hand is a copy of the sequence, so later changes to one are not seen in the other.
- `Decks.Deck.constructor`: it requires every card's rank to be in the variant's rank list. Cards outside it have no key (`Hash#key` gives `nil`). In Ruby, sorting such cards and `max_by` over them may raise, or may not, depending on which cards get compared. The model leaves these cards out.
- `BeloteHand.HighestOfSuit`: when several copies of the same card tie, it returns the first. Ruby's `max_by` may return another copy, but every copy is the same value.
- The Ruby `Hand`/`WarDeckHand`/`BeloteDeckHand` classes also keep `@ranks_ascending`. Here each hand predicate uses its variant's rank list directly.
