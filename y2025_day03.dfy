/**
 * 2025 day 3 (2025/src/day03.hpp): battery banks. The joltage of a bank
 * with `count` batteries switched on is the number their digits spell in
 * bank order; `max_joltage` picks the digits greedily, each time the
 * leftmost largest digit that still leaves room for the rest.
 */
module Y2025Day03 {
  import opened AocMath

  /** The value of a digit character. */
  function Digit(c: char): int
  {
    c as int - '0' as int
  }

  predicate IsDigits(bank: string)
  {
    forall k :: 0 <= k < |bank| ==> '0' <= bank[k] <= '9'
  }

  /**
   * `std::max_element` over positions lo .. hi - 1: the first position
   * holding the largest character.
   */
  function MaxElement(bank: string, lo: nat, hi: nat): (m: nat)
    requires lo < hi <= |bank|
    ensures lo <= m < hi
    ensures forall k :: lo <= k < hi ==> bank[k] <= bank[m]
    ensures forall k :: lo <= k < m ==> bank[k] < bank[m]
    decreases hi - lo
  {
    if hi == lo + 1 then lo
    else
      var m := MaxElement(bank, lo, hi - 1);
      if bank[m] < bank[hi - 1] then hi - 1 else m
  }

  /**
   * The positions the greedy choice switches on, from `start`, when `k`
   * batteries are still to be chosen: the first largest digit among those
   * that leave k - 1 batteries after them, then the choice after it.
   */
  function Greedy(bank: string, start: nat, k: nat): (picks: seq<nat>)
    requires start + k <= |bank|
    ensures |picks| == k
    ensures forall j :: 0 <= j < k ==> start <= picks[j] < |bank|
    decreases k
  {
    if k == 0 then []
    else
      var m := MaxElement(bank, start, |bank| - k + 1);
      [m] + Greedy(bank, m + 1, k - 1)
  }

  /** The digits at the given positions. */
  function DigitsAt(bank: string, picks: seq<nat>): (ds: seq<int>)
    requires forall k :: 0 <= k < |picks| ==> picks[k] < |bank|
    ensures |ds| == |picks|
  {
    seq(|picks|, k requires 0 <= k < |picks| => Digit(bank[picks[k]]))
  }

  /** The number a sequence of digits spells, most significant first. */
  function Value(ds: seq<int>): int
  {
    if ds == [] then 0 else ds[0] * Pow(10, |ds| - 1) + Value(ds[1..])
  }

  /** Positions strictly increasing within start .. n - 1: a choice of batteries. */
  predicate Choice(picks: seq<nat>, start: nat, n: nat)
  {
    (forall k :: 0 <= k < |picks| ==> start <= picks[k] < n) &&
    (forall a, b :: 0 <= a < b < |picks| ==> picks[a] < picks[b])
  }

  /**
   * `max_joltage`: `count` rounds, each taking the largest digit from the
   * current start up to the last position that leaves room for the
   * remaining rounds, and appending it to the value. `left` counts the
   * rounds still to go, `count - i + 1` in the source's numbering. The end
   * iterator would run before the beginning with more rounds than
   * batteries.
   */
  method MaxJoltage(bank: string, count: nat) returns (value: int)
    requires count <= |bank|
    ensures value == Value(DigitsAt(bank, Greedy(bank, 0, count)))
  {
    value := 0;
    var start := 0;
    var left: nat := count;
    while left > 0
      invariant start + left <= |bank|
      invariant Rounds(bank, start, left, value) == Rounds(bank, 0, count, 0)
    {
      var m := MaxElement(bank, start, |bank| - left + 1);
      value := value * 10 + Digit(bank[m]);
      start, left := m + 1, left - 1;
    }
    assert Rounds(bank, start, 0, value) == value;
    ghost var none: seq<nat> := [];
    assert Value(DigitsAt(bank, none)) == 0;
    RoundsSpellGreedy(bank, 0, count, none);
    assert none + Greedy(bank, 0, count) == Greedy(bank, 0, count);
  }

  /** The value after the remaining `left` rounds of `max_joltage` from `start`, with `value` so far. */
  function Rounds(bank: string, start: nat, left: nat, value: int): int
    requires start + left <= |bank|
    decreases left
  {
    if left == 0 then value
    else
      var m := MaxElement(bank, start, |bank| - left + 1);
      Rounds(bank, m + 1, left - 1, value * 10 + Digit(bank[m]))
  }

  /** The rounds append the digits of the greedy choice to the value spelled so far. */
  lemma {:induction false} RoundsSpellGreedy(bank: string, start: nat, left: nat, picked: seq<nat>)
    requires start + left <= |bank|
    requires forall k :: 0 <= k < |picked| ==> picked[k] < |bank|
    ensures Rounds(bank, start, left, Value(DigitsAt(bank, picked))) == Value(DigitsAt(bank, picked + Greedy(bank, start, left)))
    decreases left
  {
    if left == 0 {
      assert picked + [] == picked;
    } else {
      var m := MaxElement(bank, start, |bank| - left + 1);
      Regroup(picked, m, Greedy(bank, m + 1, left - 1));
      DigitsAtSnoc(bank, picked, m);
      ValueSnoc(DigitsAt(bank, picked), Digit(bank[m]));
      RoundsSpellGreedy(bank, m + 1, left - 1, picked + [m]);
    }
  }

  lemma Regroup(a: seq<nat>, x: nat, b: seq<nat>)
    ensures a + ([x] + b) == (a + [x]) + b
  {
  }

  lemma DigitsAtSnoc(bank: string, picks: seq<nat>, s: nat)
    requires forall k :: 0 <= k < |picks| ==> picks[k] < |bank|
    requires s < |bank|
    ensures DigitsAt(bank, picks + [s]) == DigitsAt(bank, picks) + [Digit(bank[s])]
  {
  }

  /** Appending a digit shifts the value one place left. */
  lemma {:induction false} ValueSnoc(ds: seq<int>, d: int)
    ensures Value(ds + [d]) == Value(ds) * 10 + d
  {
    if ds != [] {
      ValueSnoc(ds[1..], d);
      assert (ds + [d])[1..] == ds[1..] + [d];
      var p := Pow(10, |ds| - 1);
      assert Pow(10, |ds|) == 10 * p;
      assert ds[0] * (10 * p) == (ds[0] * p) * 10;
    }
  }

  /** A k-digit number is below 10^k. */
  lemma {:induction false} ValueBounds(ds: seq<int>)
    requires forall k :: 0 <= k < |ds| ==> 0 <= ds[k] <= 9
    ensures 0 <= Value(ds) < Pow(10, |ds|)
  {
    if ds != [] {
      ValueBounds(ds[1..]);
      var p := Pow(10, |ds| - 1);
      PowTenPositive(|ds| - 1);
      assert ds[0] * p <= 9 * p;
      assert Pow(10, |ds|) == 10 * p;
    }
  }

  lemma MulMonotone(x: int, y: int, p: int)
    requires x <= y && p >= 0
    ensures x * p <= y * p
  {
    assert y * p - x * p == (y - x) * p;
  }

  /** Of two numbers with the same number of digits, the larger leading digit wins. */
  lemma LeadingDigitDecides(ds: seq<int>, es: seq<int>)
    requires |ds| == |es| > 0
    requires forall k :: 0 <= k < |ds| ==> 0 <= ds[k] <= 9 && 0 <= es[k] <= 9
    requires ds[0] < es[0]
    ensures Value(ds) < Value(es)
  {
    var p := Pow(10, |ds| - 1);
    var a, b := ds[0], es[0];
    var r1, r2 := Value(ds[1..]), Value(es[1..]);
    assert Value(ds) == a * p + r1;
    assert Value(es) == b * p + r2;
    ValueBounds(ds[1..]);
    ValueBounds(es[1..]);
    LeadingBound(a, b, p, r1, r2);
  }

  /** The arithmetic of a leading digit: a * p + r1 < b * p + r2 when a < b and 0 <= r1 < p. */
  lemma LeadingBound(a: int, b: int, p: int, r1: int, r2: int)
    requires a < b && 0 <= r1 < p && 0 <= r2
    ensures a * p + r1 < b * p + r2
  {
    MulMonotone(a + 1, b, p);
    assert (a + 1) * p == a * p + p;
  }

  /** The positions of a choice spread out: the j-th is at least j after the first. */
  lemma {:induction false} ChoiceSpread(picks: seq<nat>, start: nat, n: nat)
    requires Choice(picks, start, n) && |picks| > 0
    ensures picks[0] + |picks| <= n
  {
    if |picks| > 1 {
      ChoiceSpread(picks[1..], start, n);
    }
  }

  /** The greedy positions are a choice of k batteries from `start` on. */
  lemma {:induction false} GreedyIsChoice(bank: string, start: nat, k: nat)
    requires start + k <= |bank|
    ensures Choice(Greedy(bank, start, k), start, |bank|)
    decreases k
  {
    if k > 0 {
      var m := MaxElement(bank, start, |bank| - k + 1);
      GreedyIsChoice(bank, m + 1, k - 1);
    }
  }

  /** No choice of k batteries from `start` on spells a larger number than the greedy one. */
  lemma {:induction false} GreedyIsMaximal(bank: string, start: nat, k: nat)
    requires IsDigits(bank) && start + k <= |bank|
    ensures forall picks :: Choice(picks, start, |bank|) && |picks| == k ==>
      Value(DigitsAt(bank, picks)) <= Value(DigitsAt(bank, Greedy(bank, start, k)))
    decreases k
  {
    if k > 0 {
      var m := MaxElement(bank, start, |bank| - k + 1);
      GreedyIsMaximal(bank, m + 1, k - 1);
      forall picks | Choice(picks, start, |bank|) && |picks| == k
        ensures Value(DigitsAt(bank, picks)) <= Value(DigitsAt(bank, Greedy(bank, start, k)))
      {
        if bank[picks[0]] == bank[m] && m <= picks[0] {
          ChoiceTail(picks, start, m, |bank|);
        }
        GreedyStep(bank, start, k, picks, m);
      }
    }
  }

  /**
   * One greedy round: the first digit of a choice is at most the greedy
   * pick's, and on a tie the rest compares as the rounds after it do.
   */
  lemma GreedyStep(bank: string, start: nat, k: nat, picks: seq<nat>, m: nat)
    requires IsDigits(bank) && start + k <= |bank| && k > 0
    requires Choice(picks, start, |bank|) && |picks| == k
    requires m == MaxElement(bank, start, |bank| - k + 1)
    requires bank[picks[0]] == bank[m] && m <= picks[0] ==>
      Value(DigitsAt(bank, picks[1..])) <= Value(DigitsAt(bank, Greedy(bank, m + 1, k - 1)))
    ensures Value(DigitsAt(bank, picks)) <= Value(DigitsAt(bank, Greedy(bank, start, k)))
  {
    var later := Greedy(bank, m + 1, k - 1);
    assert Greedy(bank, start, k) == [m] + later;
    FirstPickBounded(bank, start, k, picks, m);
    if bank[picks[0]] < bank[m] {
      FirstPickDecides(bank, picks, [m] + later);
    } else {
      FirstPickTies(bank, picks, m, later);
    }
  }

  /**
   * The first position of any choice of k batteries lies where the greedy
   * round looks, so its digit is at most the greedy pick's, and a tie
   * cannot come before the greedy pick, which is the leftmost largest.
   */
  lemma FirstPickBounded(bank: string, start: nat, k: nat, picks: seq<nat>, m: nat)
    requires start + k <= |bank| && 0 < k
    requires Choice(picks, start, |bank|) && |picks| == k
    requires m == MaxElement(bank, start, |bank| - k + 1)
    ensures bank[picks[0]] < bank[m] || (bank[picks[0]] == bank[m] && m <= picks[0])
  {
    ChoiceSpread(picks, start, |bank|);
  }

  /** Dropping the first position of a choice that starts at or after `m` leaves a choice after `m`. */
  lemma ChoiceTail(picks: seq<nat>, start: nat, m: nat, n: nat)
    requires Choice(picks, start, n) && |picks| > 0 && m <= picks[0]
    ensures Choice(picks[1..], m + 1, n)
  {
    forall a | 0 <= a < |picks| - 1
      ensures m + 1 <= picks[1..][a] < n
    {
      assert picks[0] < picks[a + 1];
    }
  }

  /** Digit characters give digits. */
  lemma DigitsAtDigits(bank: string, picks: seq<nat>)
    requires IsDigits(bank) && forall k :: 0 <= k < |picks| ==> picks[k] < |bank|
    ensures forall k :: 0 <= k < |picks| ==> 0 <= DigitsAt(bank, picks)[k] <= 9
  {
  }

  /** A choice whose first digit is smaller spells a smaller number. */
  lemma FirstPickDecides(bank: string, picks: seq<nat>, g: seq<nat>)
    requires IsDigits(bank) && |picks| == |g| > 0
    requires forall k :: 0 <= k < |picks| ==> picks[k] < |bank| && g[k] < |bank|
    requires bank[picks[0]] < bank[g[0]]
    ensures Value(DigitsAt(bank, picks)) < Value(DigitsAt(bank, g))
  {
    DigitsAtDigits(bank, picks);
    DigitsAtDigits(bank, g);
    LeadingDigitDecides(DigitsAt(bank, picks), DigitsAt(bank, g));
  }

  /** Numbers with the same leading digit and length compare as their remaining digits do. */
  lemma SameLeadingDigit(ds: seq<int>, es: seq<int>)
    requires |ds| == |es| > 0 && ds[0] == es[0]
    requires Value(ds[1..]) <= Value(es[1..])
    ensures Value(ds) <= Value(es)
  {
  }

  /** Choices with the same first digit compare as their remaining digits do. */
  lemma FirstPickTies(bank: string, picks: seq<nat>, m: nat, later: seq<nat>)
    requires |picks| > 0 && m < |bank| && |picks| == |later| + 1
    requires forall k :: 0 <= k < |picks| ==> picks[k] < |bank|
    requires forall k :: 0 <= k < |later| ==> later[k] < |bank|
    requires bank[picks[0]] == bank[m]
    requires Value(DigitsAt(bank, picks[1..])) <= Value(DigitsAt(bank, later))
    ensures Value(DigitsAt(bank, picks)) <= Value(DigitsAt(bank, [m] + later))
  {
    var ds, es := DigitsAt(bank, picks), DigitsAt(bank, [m] + later);
    assert ds[1..] == DigitsAt(bank, picks[1..]);
    assert es[1..] == DigitsAt(bank, later);
    SameLeadingDigit(ds, es);
  }

  /** `max_joltage` returns the largest number any choice of `count` batteries spells. */
  lemma MaxJoltageIsMaximal(bank: string, count: nat, picks: seq<nat>)
    requires IsDigits(bank) && count <= |bank|
    requires Choice(picks, 0, |bank|) && |picks| == count
    ensures Choice(Greedy(bank, 0, count), 0, |bank|)
    ensures Value(DigitsAt(bank, picks)) <= Value(DigitsAt(bank, Greedy(bank, 0, count)))
  {
    GreedyIsChoice(bank, 0, count);
    GreedyIsMaximal(bank, 0, count);
  }

  /** A shortened worked example: from 81119 two batteries give 89. */
  lemma Example()
    ensures Value(DigitsAt("81119", Greedy("81119", 0, 2))) == 89
  {
    var bank := "81119";
    assert MaxElement(bank, 0, 4) == 0;
    assert MaxElement(bank, 1, 5) == 4;
    assert Greedy(bank, 0, 2) == [0, 4];
    assert DigitsAt(bank, [0, 4]) == [8, 9];
  }
}
