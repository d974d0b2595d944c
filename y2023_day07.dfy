/**
 * 2023 day 7 (2023/src/day07.hpp): Camel Cards. A hand of five cards has a
 * type decided by how often its cards repeat (jokers join the most common
 * card); hands are ordered by type, then card by card, then by bid.
 */
module Y2023Day07 {
  import opened AocLib

  /** A card's value: 1 is the joker, 2-9 the number cards, 10-14 T, J, Q, K, A. */
  type Card = c: int | 1 <= c <= 14 witness 1

  const JOKER: Card := 1
  const TEN: Card := 10
  const JACK: Card := 11
  const QUEEN: Card := 12
  const KING: Card := 13
  const ACE: Card := 14

  /** `operator>>` for a card: an unrecognised character leaves the card as it was. */
  function ReadCard(ch: char, prev: Card): (c: Card)
    ensures '2' <= ch <= '9' ==> c == ch as int - '0' as int
    ensures ch == 'T' ==> c == TEN
    ensures ch == 'J' ==> c == JACK
    ensures ch == 'Q' ==> c == QUEEN
    ensures ch == 'K' ==> c == KING
    ensures ch == 'A' ==> c == ACE
    ensures !('2' <= ch <= '9') && ch !in "TJQKA" ==> c == prev
  {
    if '2' <= ch <= '9' then ch as int - '0' as int
    else if ch == 'T' then TEN
    else if ch == 'J' then JACK
    else if ch == 'Q' then QUEEN
    else if ch == 'K' then KING
    else if ch == 'A' then ACE
    else prev
  }

  /** A parsed card is never the joker: jokers only come from `jacks_to_jokers`. */
  lemma ReadCardNotJoker(ch: char, prev: Card)
    requires prev != JOKER
    ensures ReadCard(ch, prev) != JOKER
  {
  }

  /** The joker ranks below every other card. */
  lemma JokerLowest(c: Card)
    requires c != JOKER
    ensures JOKER < c
  {
  }

  datatype HandType = HighCard | OnePair | TwoPair | ThreeOfAKind | FullHouse | FourOfAKind | FiveOfAKind
  {
    /** The position of the type in the enumeration, which is its strength. */
    function Rank(): nat
    {
      match this
      case HighCard => 0
      case OnePair => 1
      case TwoPair => 2
      case ThreeOfAKind => 3
      case FullHouse => 4
      case FourOfAKind => 5
      case FiveOfAKind => 6
    }
  }

  /** The number of cards of value `v`. */
  function CountOf(cards: seq<Card>, v: int): (n: nat)
    ensures n <= |cards|
  {
    if cards == [] then 0 else CountOf(cards[..|cards| - 1], v) + (if cards[|cards| - 1] == v then 1 else 0)
  }

  /** The counts vector: entry `v` holds the number of cards of value `v`, for `v` in 0 .. 14. */
  function Tally(cards: seq<Card>): (t: seq<int>)
    ensures |t| == 15
  {
    seq(15, v => CountOf(cards, v))
  }

  function Sum(s: seq<int>): int
  {
    if s == [] then 0 else s[0] + Sum(s[1..])
  }

  predicate SortedDesc(s: seq<int>)
  {
    forall i, j :: 0 <= i < j < |s| ==> s[i] >= s[j]
  }

  /** Inserts `x` into a descending sequence. */
  function Insert(x: int, s: seq<int>): seq<int>
  {
    if s == [] then [x] else if x >= s[0] then [x] + s else [s[0]] + Insert(x, s[1..])
  }

  /** Sorting in descending order (`std::ranges::sort` with `greater`). */
  function SortDesc(s: seq<int>): seq<int>
  {
    if s == [] then [] else Insert(s[0], SortDesc(s[1..]))
  }

  /** The type the largest count (jokers included) and the second count give, or None where the source asserts. */
  function Classify(first: int, second: int): Option<HandType>
  {
    if first == 5 then Some(FiveOfAKind)
    else if first == 4 then Some(FourOfAKind)
    else if first == 3 then
      (if second == 2 then Some(FullHouse) else if second == 1 then Some(ThreeOfAKind) else None)
    else if first == 2 then
      (if second == 2 then Some(TwoPair) else if second == 1 then Some(OnePair) else None)
    else if first == 1 then Some(HighCard)
    else None
  }

  /** The sorted counts of the hand with the jokers set aside. */
  function SortedCounts(cards: seq<Card>): (s: seq<int>)
    ensures |s| == 15
  {
    SortDescLength(Tally(cards)[JOKER := 0]);
    SortDesc(Tally(cards)[JOKER := 0])
  }

  /** The hand type: jokers are added to the largest remaining count. */
  function TypeOf(cards: seq<Card>): Option<HandType>
  {
    var s := SortedCounts(cards);
    Classify(s[0] + CountOf(cards, JOKER), s[1])
  }

  /** `identify_hand`. */
  method IdentifyHand(cards: seq<Card>) returns (t: HandType)
    requires |cards| == 5
    ensures TypeOf(cards) == Some(t)
    ensures CountOf(cards, JOKER) == 0 ==> t == PuzzleType(cards)
    ensures forall r :: FillsJokers(cards, r) ==> PuzzleType(r).Rank() <= t.Rank()
    ensures exists r :: FillsJokers(cards, r) && PuzzleType(r) == t
  {
    var counts := seq(15, _ => 0);
    for i := 0 to 5
      invariant |counts| == 15 && forall v :: 0 <= v < 15 ==> counts[v] == CountOf(cards[..i], v)
    {
      assert cards[..i + 1][..i] == cards[..i];
      counts := counts[cards[i] := counts[cards[i]] + 1];
    }
    assert cards[..5] == cards;
    assert counts == Tally(cards);
    var jokerCount := counts[JOKER];
    counts := counts[JOKER := 0];
    SortDescLength(counts);
    counts := SortDesc(counts);
    counts := counts[0 := counts[0] + jokerCount];
    ClassifyTotal(cards);
    if CountOf(cards, JOKER) == 0 {
      TypeOfJokerFree(cards);
    }
    forall r | FillsJokers(cards, r)
      ensures PuzzleType(r).Rank() <= TypeOf(cards).value.Rank()
    {
      BestFill(cards, r);
    }
    ghost var r := FillAttains(cards);
    match Classify(counts[0], counts[1])
    case Some(ht) => t := ht;
    case None => assert false;
  }

  lemma {:induction false} SortDescLength(s: seq<int>)
    ensures |SortDesc(s)| == |s|
  {
    if s != [] {
      SortDescLength(s[1..]);
      InsertFacts(s[0], SortDesc(s[1..]));
    }
  }

  /** Inserting adds one element, `x`, to the multiset, the length and the sum. */
  lemma {:induction false} InsertFacts(x: int, s: seq<int>)
    ensures |Insert(x, s)| == |s| + 1 && Sum(Insert(x, s)) == x + Sum(s)
    ensures multiset(Insert(x, s)) == multiset{x} + multiset(s)
  {
    if s != [] && x < s[0] {
      InsertFacts(x, s[1..]);
      assert s == [s[0]] + s[1..];
    }
  }

  /** Inserting keeps a descending sequence descending. */
  lemma {:induction false} InsertSorted(x: int, s: seq<int>)
    requires SortedDesc(s)
    ensures SortedDesc(Insert(x, s))
  {
    if s != [] && x < s[0] {
      InsertSorted(x, s[1..]);
      InsertFacts(x, s[1..]);
      var r := Insert(x, s[1..]);
      forall k | 0 <= k < |r| ensures s[0] >= r[k] {
        assert r[k] in multiset(r);
        if r[k] != x {
          assert r[k] in multiset(s[1..]);
          var m :| 0 <= m < |s[1..]| && s[1..][m] == r[k];
          assert s[1 + m] == r[k];
        }
      }
      assert Insert(x, s) == [s[0]] + r;
    }
  }

  /** Sorting yields a descending permutation with the same sum. */
  lemma {:induction false} SortDescFacts(s: seq<int>)
    ensures |SortDesc(s)| == |s| && SortedDesc(SortDesc(s))
    ensures multiset(SortDesc(s)) == multiset(s) && Sum(SortDesc(s)) == Sum(s)
  {
    if s != [] {
      SortDescFacts(s[1..]);
      InsertFacts(s[0], SortDesc(s[1..]));
      InsertSorted(s[0], SortDesc(s[1..]));
      assert s == [s[0]] + s[1..];
    }
  }

  /** Changing one entry changes the sum by the difference. */
  lemma {:induction false} SumUpdate(s: seq<int>, i: nat, v: int)
    requires i < |s|
    ensures Sum(s[i := v]) == Sum(s) - s[i] + v
  {
    if i > 0 {
      SumUpdate(s[1..], i - 1, v);
      assert s[i := v][1..] == s[1..][i - 1 := v];
    }
  }

  /** The counts add up to the number of cards. */
  lemma {:induction false} TallySum(cards: seq<Card>)
    ensures Sum(Tally(cards)) == |cards|
  {
    if cards == [] {
      assert Tally(cards) == seq(15, _ => 0);
      ZeroSum(15);
    } else {
      var init := cards[..|cards| - 1];
      var c := cards[|cards| - 1];
      TallySum(init);
      assert Tally(cards) == Tally(init)[c := Tally(init)[c] + 1];
      SumUpdate(Tally(init), c, Tally(init)[c] + 1);
    }
  }

  lemma {:induction false} ZeroSum(n: nat)
    ensures Sum(seq(n, _ => 0)) == 0
  {
    if n > 0 {
      assert seq(n, _ => 0)[1..] == seq(n - 1, _ => 0);
      ZeroSum(n - 1);
    }
  }

  /** In a descending sequence of non-negative numbers, the first two entries bound and are bounded by the sum. */
  lemma {:induction false} HeadFacts(s: seq<int>)
    requires |s| >= 2 && SortedDesc(s) && forall k :: 0 <= k < |s| ==> s[k] >= 0
    ensures s[0] >= s[1] >= 0 && s[0] + s[1] <= Sum(s)
    ensures Sum(s) > s[0] ==> s[1] > 0
    ensures Sum(s) > 0 ==> s[0] > 0
  {
    var rest := s[1..];
    assert Sum(s) == s[0] + Sum(rest);
    assert Sum(rest) == rest[0] + Sum(rest[1..]);
    NonNegSum(rest[1..]);
    BoundedSum(rest[1..], s[1]);
  }

  lemma {:induction false} NonNegSum(s: seq<int>)
    requires forall k :: 0 <= k < |s| ==> s[k] >= 0
    ensures Sum(s) >= 0
  {
    if s != [] {
      NonNegSum(s[1..]);
    }
  }

  /** A sum of numbers at most `m`, when positive, has an entry in (0, m]. */
  lemma {:induction false} BoundedSum(s: seq<int>, m: int)
    requires forall k :: 0 <= k < |s| ==> 0 <= s[k] <= m
    ensures Sum(s) > 0 ==> m > 0
  {
    if s != [] {
      BoundedSum(s[1..], m);
    }
  }

  /** Every five-card hand has a type: the switch in `identify_hand` never falls through to its assertion. */
  lemma ClassifyTotal(cards: seq<Card>)
    requires |cards| == 5
    ensures TypeOf(cards).Some?
  {
    var s := SortedCounts(cards);
    SortedCountsFacts(cards);
    HeadFacts(s);
    ClassifyCounts(s[0], s[1], CountOf(cards, JOKER), Sum(s));
  }

  /** The sorted non-joker counts are descending, non-negative, and add up to the non-joker cards. */
  lemma SortedCountsFacts(cards: seq<Card>)
    ensures var s := SortedCounts(cards);
      SortedDesc(s) && Sum(s) == |cards| - CountOf(cards, JOKER) && forall k :: 0 <= k < |s| ==> s[k] >= 0
  {
    var t := Tally(cards);
    var u := t[JOKER := 0];
    var s := SortedCounts(cards);
    TallySum(cards);
    SumUpdate(t, JOKER, 0);
    SortDescFacts(u);
    forall k | 0 <= k < |s| ensures s[k] >= 0 {
      assert s[k] in multiset(u);
    }
  }

  /** The arithmetic behind the switch: counts of five cards always name a type. */
  lemma ClassifyCounts(first: int, second: int, jokers: int, rest: int)
    requires 0 <= jokers <= 5 && rest == 5 - jokers
    requires first >= second >= 0 && first + second <= rest
    requires rest > first ==> second > 0
    requires rest > 0 ==> first > 0
    ensures Classify(first + jokers, second).Some?
  {
  }

  /** `x` occurs at two different positions of `s`. */
  ghost predicate Twice(s: seq<int>, x: int)
  {
    exists i, j :: 0 <= i < j < |s| && s[i] == x && s[j] == x
  }

  lemma {:induction false} TwiceCount(s: seq<int>, x: int)
    ensures Twice(s, x) <==> multiset(s)[x] >= 2
    decreases |s|
  {
    if s != [] {
      var rest := s[1..];
      TwiceCount(rest, x);
      assert s == [s[0]] + rest;
      assert multiset(s)[x] == (if s[0] == x then 1 else 0) + multiset(rest)[x];
      if Twice(s, x) {
        var i, j :| 0 <= i < j < |s| && s[i] == x && s[j] == x;
        if i == 0 {
          assert rest[j - 1] == x;
          assert x in multiset(rest);
        } else {
          assert rest[i - 1] == x && rest[j - 1] == x;
        }
      }
      if multiset(s)[x] >= 2 {
        if s[0] == x {
          assert x in multiset(rest);
          var k :| 0 <= k < |rest| && rest[k] == x;
          assert s[k + 1] == x;
        } else {
          var i, j :| 0 <= i < j < |rest| && rest[i] == x && rest[j] == x;
          assert s[i + 1] == x && s[j + 1] == x;
        }
      }
    }
  }

  /** No entry exceeds the first entry of the sorted sequence. */
  lemma AllBelowFirst(t: seq<int>, a: int)
    requires 0 <= a < |t|
    ensures |SortDesc(t)| == |t| && t[a] <= SortDesc(t)[0]
  {
    SortDescFacts(t);
    var s := SortDesc(t);
    assert t[a] in multiset(t);
    assert t[a] in multiset(s);
    var i :| 0 <= i < |s| && s[i] == t[a];
  }

  /** Of two entries at different positions, one is at most the second entry of the sorted sequence. */
  lemma SecondBound(t: seq<int>, a: int, b: int)
    requires 0 <= a < |t| && 0 <= b < |t| && a != b
    ensures |SortDesc(t)| == |t| && (t[a] <= SortDesc(t)[1] || t[b] <= SortDesc(t)[1])
  {
    SortDescFacts(t);
    var s := SortDesc(t);
    if t[a] == t[b] {
      var x := t[a];
      if a < b {
        assert t[a] == x && t[b] == x;
      } else {
        assert t[b] == x && t[a] == x;
      }
      assert Twice(t, x);
      TwiceCount(t, x);
      TwiceCount(s, x);
      var i, j :| 0 <= i < j < |s| && s[i] == x && s[j] == x;
      assert s[1] >= s[j];
    } else {
      assert t[a] in multiset(t) && t[b] in multiset(t);
      assert t[a] in multiset(s) && t[b] in multiset(s);
      var i :| 0 <= i < |s| && s[i] == t[a];
      var j :| 0 <= j < |s| && s[j] == t[b];
      assert i != j;
      if i >= 1 {
        assert s[1] >= s[i];
      } else {
        assert s[1] >= s[j];
      }
    }
  }

  /** The first two entries of the sorted sequence sit at two different positions of the original. */
  lemma FirstSecondAt(t: seq<int>) returns (a: nat, b: nat)
    requires |t| >= 2
    ensures |SortDesc(t)| == |t|
    ensures a < |t| && b < |t| && a != b && t[a] == SortDesc(t)[0] && t[b] == SortDesc(t)[1]
  {
    SortDescFacts(t);
    var s := SortDesc(t);
    if s[0] == s[1] {
      assert s[0] == s[0] && s[1] == s[0];
      assert Twice(s, s[0]);
      TwiceCount(s, s[0]);
      TwiceCount(t, s[0]);
      var i, j :| 0 <= i < j < |t| && t[i] == s[0] && t[j] == s[0];
      a, b := i, j;
    } else {
      assert s[0] in multiset(s) && s[1] in multiset(s);
      assert s[0] in multiset(t) && s[1] in multiset(t);
      var i :| 0 <= i < |t| && t[i] == s[0];
      var j :| 0 <= j < |t| && t[j] == s[1];
      a, b := i, j;
    }
  }

  /**
   * The hand types as the puzzle describes them, from how often the card
   * values repeat: five alike; four alike; three alike and a pair; three
   * alike; two pairs; one pair; all different.
   */
  ghost function PuzzleType(cards: seq<Card>): HandType
  {
    if exists v :: CountOf(cards, v) == 5 then FiveOfAKind
    else if exists v :: CountOf(cards, v) == 4 then FourOfAKind
    else if exists v, w :: CountOf(cards, v) == 3 && CountOf(cards, w) == 2 then FullHouse
    else if exists v :: CountOf(cards, v) == 3 then ThreeOfAKind
    else if exists v, w :: v != w && CountOf(cards, v) == 2 && CountOf(cards, w) == 2 then TwoPair
    else if exists v :: CountOf(cards, v) == 2 then OnePair
    else HighCard
  }

  lemma {:induction false} CountOutside(cards: seq<Card>, v: int)
    requires v < 1 || v > 14
    ensures CountOf(cards, v) == 0
    decreases |cards|
  {
    if cards != [] {
      CountOutside(cards[..|cards| - 1], v);
    }
  }

  /** The count of a value other than the joker, as the counts vector with the jokers set aside holds it. */
  lemma NonJokerCount(cards: seq<Card>, v: int)
    requires v != JOKER
    ensures CountOf(cards, v) == if 0 <= v < 15 then Tally(cards)[JOKER := 0][v] else 0
  {
    if !(0 <= v < 15) || v == 0 {
      CountOutside(cards, v);
    }
  }

  /** No value other than the joker occurs more often than the first sorted count. */
  lemma CountBelowFirst(cards: seq<Card>, v: int)
    requires v != JOKER
    ensures CountOf(cards, v) <= SortedCounts(cards)[0]
  {
    NonJokerCount(cards, v);
    SortedCountsFacts(cards);
    if 0 <= v < 15 {
      AllBelowFirst(Tally(cards)[JOKER := 0], v);
    }
  }

  /** Of two different values other than the joker, one occurs at most as often as the second sorted count. */
  lemma CountsBelowSecond(cards: seq<Card>, v: int, w: int)
    requires v != JOKER && w != JOKER && v != w
    ensures CountOf(cards, v) <= SortedCounts(cards)[1] || CountOf(cards, w) <= SortedCounts(cards)[1]
  {
    NonJokerCount(cards, v);
    NonJokerCount(cards, w);
    SortedCountsFacts(cards);
    if 0 <= v < 15 && 0 <= w < 15 {
      SecondBound(Tally(cards)[JOKER := 0], v, w);
    }
  }

  /** Two different values other than the joker whose counts are the first two sorted counts. */
  lemma TopCounts(cards: seq<Card>) returns (a: int, b: int)
    ensures a != JOKER && b != JOKER && a != b
    ensures CountOf(cards, a) == SortedCounts(cards)[0] && CountOf(cards, b) == SortedCounts(cards)[1]
    ensures SortedCounts(cards)[0] > 0 ==> 1 <= a <= 14
  {
    var u := Tally(cards)[JOKER := 0];
    var s := SortedCounts(cards);
    SortedCountsFacts(cards);
    var i, j := FirstSecondAt(u);
    CountOutside(cards, 0);
    CountOutside(cards, 15);
    if s[0] == 0 {
      assert s[1] == 0;
      a, b := 0, 15;
    } else if s[1] == 0 {
      a, b := i, 0;
    } else {
      a, b := i, j;
    }
    NonJokerCount(cards, a);
    NonJokerCount(cards, b);
  }

  /** Without jokers, identify_hand's type is the puzzle's type. */
  lemma TypeOfJokerFree(cards: seq<Card>)
    requires |cards| == 5 && CountOf(cards, JOKER) == 0
    ensures TypeOf(cards) == Some(PuzzleType(cards))
  {
    var s := SortedCounts(cards);
    SortedCountsFacts(cards);
    HeadFacts(s);
    ClassifyTotal(cards);
    var a, b := TopCounts(cards);
    forall v | true
      ensures CountOf(cards, v) <= s[0]
    {
      if v != JOKER {
        CountBelowFirst(cards, v);
      }
    }
    forall v, w | v != w && CountOf(cards, v) > 0 && CountOf(cards, w) > 0
      ensures CountOf(cards, v) <= s[1] || CountOf(cards, w) <= s[1]
    {
      CountsBelowSecond(cards, v, w);
    }
    if s[0] == 3 && s[1] == 1 {
      assert !exists v, w :: CountOf(cards, v) == 3 && CountOf(cards, w) == 2;
    }
    if s[0] == 2 && s[1] == 1 {
      assert !exists v, w :: v != w && CountOf(cards, v) == 2 && CountOf(cards, w) == 2;
    }
  }

  /** `r` is the hand with every joker replaced by some card that is not a joker. */
  predicate FillsJokers(cards: seq<Card>, r: seq<Card>)
  {
    |r| == |cards| && forall i :: 0 <= i < |cards| ==> if cards[i] == JOKER then r[i] != JOKER else r[i] == cards[i]
  }

  /** How replacing the jokers can change the counts: each value gains at most the jokers, two values together too. */
  lemma {:induction false} FillCounts(cards: seq<Card>, r: seq<Card>, v: int, w: int)
    requires FillsJokers(cards, r) && v != JOKER && w != JOKER && v != w
    ensures CountOf(r, JOKER) == 0
    ensures CountOf(cards, v) <= CountOf(r, v) <= CountOf(cards, v) + CountOf(cards, JOKER)
    ensures CountOf(r, v) + CountOf(r, w) <= CountOf(cards, v) + CountOf(cards, w) + CountOf(cards, JOKER)
    decreases |cards|
  {
    if cards != [] {
      var n := |cards|;
      assert FillsJokers(cards[..n - 1], r[..n - 1]);
      FillCounts(cards[..n - 1], r[..n - 1], v, w);
    }
  }

  /** Every joker replaced by `c`. */
  function FillWith(cards: seq<Card>, c: Card): (r: seq<Card>)
    ensures |r| == |cards|
    ensures forall i :: 0 <= i < |cards| ==> r[i] == if cards[i] == JOKER then c else cards[i]
  {
    if cards == [] then []
    else
      var last := cards[|cards| - 1];
      FillWith(cards[..|cards| - 1], c) + [if last == JOKER then c else last]
  }

  lemma {:induction false} FillWithCounts(cards: seq<Card>, c: Card, v: int)
    requires c != JOKER
    ensures CountOf(FillWith(cards, c), v) ==
      if v == c then CountOf(cards, c) + CountOf(cards, JOKER)
      else if v == JOKER then 0
      else CountOf(cards, v)
    decreases |cards|
  {
    if cards != [] {
      var n := |cards|;
      FillWithCounts(cards[..n - 1], c, v);
      assert FillWith(cards, c)[..n - 1] == FillWith(cards[..n - 1], c);
    }
  }

  /** A larger first count, or the same first count and a second no smaller, never gives a weaker type. */
  lemma ClassifyMonotone(f1: int, s1: int, f2: int, s2: int)
    requires Classify(f1, s1).Some? && Classify(f2, s2).Some?
    requires f1 < f2 || (f1 == f2 && s1 <= s2)
    ensures Classify(f1, s1).value.Rank() <= Classify(f2, s2).value.Rank()
  {
  }

  /** Replacing the jokers yields no count above the first sorted count plus the jokers, and a second count no higher when that is reached. */
  lemma FillBounds(cards: seq<Card>, r: seq<Card>)
    requires FillsJokers(cards, r)
    ensures SortedCounts(r)[0] <= SortedCounts(cards)[0] + CountOf(cards, JOKER)
    ensures SortedCounts(r)[0] == SortedCounts(cards)[0] + CountOf(cards, JOKER) ==>
      SortedCounts(r)[1] <= SortedCounts(cards)[1]
  {
    var s, s' := SortedCounts(cards), SortedCounts(r);
    var jokers := CountOf(cards, JOKER);
    var a, b := TopCounts(r);
    FillCounts(cards, r, a, b);
    CountBelowFirst(cards, a);
    CountBelowFirst(cards, b);
    if s'[0] == s[0] + jokers && s'[1] > s[1] {
      CountsBelowSecond(cards, a, b);
      assert false;
    }
  }

  /** With jokers, identify_hand's type is the best type any replacement of the jokers makes. */
  lemma BestFill(cards: seq<Card>, r: seq<Card>)
    requires |cards| == 5 && FillsJokers(cards, r)
    ensures TypeOf(cards).Some? && PuzzleType(r).Rank() <= TypeOf(cards).value.Rank()
  {
    var s, s' := SortedCounts(cards), SortedCounts(r);
    FillCounts(cards, r, 2, 3);
    ClassifyTotal(cards);
    ClassifyTotal(r);
    TypeOfJokerFree(r);
    FillBounds(cards, r);
    ClassifyMonotone(s'[0], s'[1], s[0] + CountOf(cards, JOKER), s[1]);
  }

  /** Replacing every joker by `best`, a most common other card, raises the first sorted count by the jokers and keeps the second. */
  lemma FillTop(cards: seq<Card>, best: Card)
    requires best != JOKER
    requires SortedCounts(cards)[0] > 0 ==> CountOf(cards, best) == SortedCounts(cards)[0]
    ensures SortedCounts(FillWith(cards, best))[0] == SortedCounts(cards)[0] + CountOf(cards, JOKER)
    ensures SortedCounts(FillWith(cards, best))[1] == SortedCounts(cards)[1]
  {
    var r := FillWith(cards, best);
    var s, s' := SortedCounts(cards), SortedCounts(r);
    SortedCountsFacts(cards);
    SortedCountsFacts(r);
    HeadFacts(s);
    HeadFacts(s');
    var a, b := TopCounts(cards);
    FillWithCounts(cards, best, best);
    FillBounds(cards, r);
    CountBelowFirst(r, best);
    if s[1] > 0 {
      var c := if b == best then a else b;
      FillWithCounts(cards, best, c);
      CountsBelowSecond(r, best, c);
    }
  }

  /** Some replacement of the jokers reaches identify_hand's type: all of them become the most common other card. */
  lemma FillAttains(cards: seq<Card>) returns (r: seq<Card>)
    requires |cards| == 5
    ensures FillsJokers(cards, r) && TypeOf(cards) == Some(PuzzleType(r))
  {
    var a, b := TopCounts(cards);
    var best: Card := if SortedCounts(cards)[0] > 0 then a else ACE;
    r := FillWith(cards, best);
    FillWithCounts(cards, best, JOKER);
    FillTop(cards, best);
    TypeOfJokerFree(r);
  }

  /** The key `operator<=>` compares: type first, then the cards in order, then the bid. */
  datatype HandKey = HandKey(handType: HandType, cards: seq<Card>, bid: int)

  /** Three-way comparison of integers. */
  function Cmp(a: int, b: int): int
  {
    if a < b then -1 else if a > b then 1 else 0
  }

  /** Lexicographic comparison of card sequences. */
  function LexCmp(a: seq<Card>, b: seq<Card>): int
  {
    if a == [] && b == [] then 0
    else if a == [] then -1
    else if b == [] then 1
    else if a[0] != b[0] then Cmp(a[0], b[0])
    else LexCmp(a[1..], b[1..])
  }

  /** `Hand::operator<=>`. */
  function Compare(a: HandKey, b: HandKey): int
  {
    if a.handType.Rank() != b.handType.Rank() then Cmp(a.handType.Rank(), b.handType.Rank())
    else if LexCmp(a.cards, b.cards) != 0 then LexCmp(a.cards, b.cards)
    else Cmp(a.bid, b.bid)
  }

  lemma {:induction false} LexCmpAntisymmetric(a: seq<Card>, b: seq<Card>)
    ensures LexCmp(a, b) == -LexCmp(b, a)
    ensures LexCmp(a, b) == 0 <==> a == b
  {
    if a != [] && b != [] && a[0] == b[0] {
      LexCmpAntisymmetric(a[1..], b[1..]);
      assert a == [a[0]] + a[1..] && b == [b[0]] + b[1..];
    }
  }

  lemma {:induction false} LexCmpTransitive(a: seq<Card>, b: seq<Card>, c: seq<Card>)
    requires LexCmp(a, b) < 0 && LexCmp(b, c) < 0
    ensures LexCmp(a, c) < 0
  {
    if a != [] && b != [] && c != [] && a[0] == b[0] && b[0] == c[0] {
      LexCmpTransitive(a[1..], b[1..], c[1..]);
    }
  }

  lemma RankInjective(s: HandType, t: HandType)
    ensures s.Rank() == t.Rank() <==> s == t
  {
  }

  /** The hand ordering is a strong ordering: antisymmetric, equal only on equal hands, and transitive. */
  lemma CompareStrongOrder(a: HandKey, b: HandKey, c: HandKey)
    ensures Compare(a, b) == -Compare(b, a)
    ensures Compare(a, b) == 0 <==> a == b
    ensures Compare(a, b) < 0 && Compare(b, c) < 0 ==> Compare(a, c) < 0
  {
    LexCmpAntisymmetric(a.cards, b.cards);
    LexCmpAntisymmetric(b.cards, c.cards);
    LexCmpAntisymmetric(a.cards, c.cards);
    RankInjective(a.handType, b.handType);
    if LexCmp(a.cards, b.cards) < 0 && LexCmp(b.cards, c.cards) < 0 {
      LexCmpTransitive(a.cards, b.cards, c.cards);
    }
  }

  class Hand {
    var cards: seq<Card>
    var bid: int
    var handType: HandType

    constructor (cards: seq<Card>, bid: int)
      requires |cards| == 5
      ensures this.cards == cards && this.bid == bid && TypeOf(cards) == Some(handType)
    {
      var t := IdentifyHand(cards);
      this.cards := cards;
      this.bid := bid;
      handType := t;
    }

    /** The fields `operator<=>` compares. */
    function Key(): HandKey
      reads this
    {
      HandKey(handType, cards, bid)
    }

    /** `jacks_to_jokers`: every jack becomes a joker, and the type is recomputed. */
    method JacksToJokers()
      requires |cards| == 5
      modifies this
      ensures cards == JacksReplaced(old(cards)) && bid == old(bid)
      ensures TypeOf(cards) == Some(handType)
    {
      cards := JacksReplaced(cards);
      handType := IdentifyHand(cards);
    }
  }

  /** `std::ranges::replace(cards, JACK, JOKER)`. */
  function JacksReplaced(cards: seq<Card>): (r: seq<Card>)
    ensures |r| == |cards|
    ensures forall i :: 0 <= i < |cards| ==> r[i] == (if cards[i] == JACK then JOKER else cards[i])
  {
    if cards == [] then [] else [if cards[0] == JACK then JOKER else cards[0]] + JacksReplaced(cards[1..])
  }

  /** After the replacement no jack is left, and the jokers are exactly the former jacks. */
  lemma JacksReplacedCounts(cards: seq<Card>)
    requires CountOf(cards, JOKER) == 0
    ensures CountOf(JacksReplaced(cards), JACK) == 0
    ensures CountOf(JacksReplaced(cards), JOKER) == CountOf(cards, JACK)
  {
    JacksReplacedCountsAll(cards, cards);
  }

  lemma {:induction false} JacksReplacedCountsAll(cards: seq<Card>, orig: seq<Card>)
    ensures CountOf(JacksReplaced(cards), JACK) == 0
    ensures CountOf(JacksReplaced(cards), JOKER) == CountOf(cards, JACK) + CountOf(cards, JOKER)
  {
    if cards != [] {
      var init := cards[..|cards| - 1];
      JacksReplacedCountsAll(init, orig);
      assert JacksReplaced(cards)[..|cards| - 1] == JacksReplaced(init);
    }
  }
}
