/**
 * 2023 day 12 (2023/src/day12.hpp): condition records of springs. Each
 * spring is good, bad or unknown; the groups list the lengths of the runs
 * of bad springs in order. `count_arrangements` counts the ways to place
 * the groups, memoising on (spring index, group index).
 */
module Y2023Day12 {

  datatype Spring = Good | Bad | Unknown

  /** Two records agree wherever neither is unknown. */
  predicate Compatible(s1: seq<Spring>, s2: seq<Spring>)
  {
    |s1| == |s2| && forall i :: 0 <= i < |s1| ==> s1[i] == Unknown || s2[i] == Unknown || s1[i] == s2[i]
  }

  /** `check_compatible`. */
  method CheckCompatible(s1: seq<Spring>, s2: seq<Spring>) returns (ok: bool)
    ensures ok <==> Compatible(s1, s2)
  {
    if |s1| != |s2| {
      return false;
    }
    for i := 0 to |s1|
      invariant forall k :: 0 <= k < i ==> s1[k] == Unknown || s2[k] == Unknown || s1[k] == s2[k]
    {
      if s1[i] == Unknown || s2[i] == Unknown {
        continue;
      }
      if s1[i] != s2[i] {
        return false;
      }
    }
    return true;
  }

  /** Compatibility does not depend on the order of the records. */
  lemma CompatibleSymmetric(s1: seq<Spring>, s2: seq<Spring>)
    ensures Compatible(s1, s2) <==> Compatible(s2, s1)
  {
  }

  /** The first index from `i` on that is not a good spring (or `i` itself once past the end). */
  function SkipGood(springs: seq<Spring>, i: nat): (j: nat)
    ensures i <= j && (j < |springs| ==> springs[j] != Good)
    ensures j >= |springs| ==> j == i || j == |springs|
    ensures forall k :: i <= k < j ==> springs[k] == Good
    decreases |springs| - i
  {
    if i < |springs| && springs[i] == Good then SkipGood(springs, i + 1) else i
  }

  /** No bad spring from index `i` on. */
  predicate NoBad(springs: seq<Spring>, i: nat)
  {
    forall k :: i <= k < |springs| ==> springs[k] != Bad
  }

  /** Springs `j .. j + n` can all be bad. */
  predicate Fits(springs: seq<Spring>, j: nat, n: nat)
    requires j + n <= |springs|
  {
    forall k :: j <= k < j + n ==> springs[k] != Good
  }

  /** A group of length `n` can start at `j`: it fits, every spring in it can be bad, and the one after can be good. */
  predicate Placeable(springs: seq<Spring>, j: nat, n: nat)
  {
    j + n <= |springs| && Fits(springs, j, n) && !(j + n < |springs| && springs[j + n] == Bad)
  }

  /** How far `i` is from the end, as a termination measure. */
  function Remaining(springs: seq<Spring>, i: nat): nat
  {
    if i <= |springs| then |springs| - i else 0
  }

  /**
   * The number of arrangements of groups `gi ..` in springs `si ..`:
   * skip good springs; at the first other one either place the next group
   * there (it must fit and be followed by the end or a spring that can be
   * good), or, if that spring is unknown, make it good and move on.
   */
  function Arrangements(springs: seq<Spring>, groups: seq<nat>, si: nat, gi: nat): nat
    requires gi <= |groups|
    decreases |groups| - gi, Remaining(springs, si)
  {
    if gi == |groups| then
      (if NoBad(springs, si) then 1 else 0)
    else
      var j := SkipGood(springs, si);
      if j >= |springs| then 0
      else
        var end := j + groups[gi];
        var placed :=
          if Placeable(springs, j, groups[gi])
          then Arrangements(springs, groups, end + 1, gi + 1)
          else 0;
        placed + (if springs[j] == Unknown then Arrangements(springs, groups, j + 1, gi) else 0)
  }

  class ConditionRecord {
    const springs: seq<Spring>
    const groups: seq<nat>
    var memo: map<(nat, nat), int>

    constructor (springs: seq<Spring>, groups: seq<nat>)
      ensures this.springs == springs && this.groups == groups && memo == map[]
    {
      this.springs := springs;
      this.groups := groups;
      memo := map[];
    }

    /** Every memoised count is the count the recursion defines. */
    ghost predicate MemoValid()
      reads this
    {
      ValidMemo(springs, groups, memo)
    }

    /** `count_arrangements(spring_idx, group_idx)`. */
    method CountArrangements(si: nat, gi: nat) returns (count: int)
      requires gi <= |groups| && MemoValid()
      modifies this
      ensures MemoValid() && count == Arrangements(springs, groups, si, gi)
      decreases |groups| - gi, Remaining(springs, si), 1
    {
      if gi == |groups| {
        var none := FindNoBad(springs, si);
        count := if none then 1 else 0;
        ArrangementsDone(springs, groups, si, gi);
        return;
      }

      var j := SkipGoodFrom(springs, si);
      SkipArrangements(springs, groups, si, gi);
      if j >= |springs| {
        ArrangementsPastEnd(springs, groups, j, gi);
        return 0;
      }
      count := CountAt(j, gi);
    }

    /**
     * The part of `count_arrangements` after the good springs are skipped,
     * at spring `j`, which is not good: look up the memo, or place the
     * group at `j` and, if `j` is unknown, also count with `j` good; then
     * memoise the sum.
     */
    method CountAt(j: nat, gi: nat) returns (count: int)
      requires gi < |groups| && j < |springs| && springs[j] != Good && MemoValid()
      modifies this
      ensures MemoValid() && count == Arrangements(springs, groups, j, gi)
      decreases |groups| - gi, Remaining(springs, j), 0
    {
      if (j, gi) in memo {
        count := memo[(j, gi)];
        return;
      }

      count := 0;
      var g := groups[gi];
      var end := j + g;
      var valid := CanPlace(springs, j, g);
      if valid {
        count := CountArrangements(end + 1, gi + 1);
      }
      ghost var placed := count;
      assert placed == if Placeable(springs, j, g) then Arrangements(springs, groups, end + 1, gi + 1) else 0;

      if springs[j] == Unknown {
        var rest := CountArrangements(j + 1, gi);
        count := count + rest;
      }
      assert count == placed + if springs[j] == Unknown then Arrangements(springs, groups, j + 1, gi) else 0;

      ArrangementsAt(springs, groups, j, gi);
      if (j, gi) !in memo {
        MemoInsert(springs, groups, memo, j, gi, count);
        memo := memo[(j, gi) := count];
      }
    }

    /** `repeat(count)`: `count` copies of the springs joined by unknowns, and `count` copies of the groups. */
    method Repeat(count: int) returns (r: ConditionRecord)
      ensures fresh(r) && r.memo == map[]
      ensures r.springs == RepeatSprings(springs, count) && r.groups == RepeatGroups(groups, count)
    {
      var newSprings := springs;
      var newGroups := groups;
      var i := 1;
      while i < count
        invariant 1 <= i && (count >= 1 ==> i <= count) && (count < 1 ==> i == 1)
        invariant newSprings == RepeatSprings(springs, i) && newGroups == RepeatGroups(groups, i)
      {
        newSprings := newSprings + [Unknown] + springs;
        newGroups := newGroups + groups;
        i := i + 1;
      }
      r := new ConditionRecord(newSprings, newGroups);
    }
  }

  /** Every entry of `memo` is the count the recursion defines. */
  ghost predicate ValidMemo(springs: seq<Spring>, groups: seq<nat>, memo: map<(nat, nat), int>)
  {
    forall key :: key in memo ==> key.1 <= |groups| && memo[key] == Arrangements(springs, groups, key.0, key.1)
  }

  lemma MemoInsert(springs: seq<Spring>, groups: seq<nat>, memo: map<(nat, nat), int>, si: nat, gi: nat, count: int)
    requires ValidMemo(springs, groups, memo) && gi <= |groups| && count == Arrangements(springs, groups, si, gi)
    ensures ValidMemo(springs, groups, memo[(si, gi) := count])
  {
  }

  /** With every group placed, there is one arrangement if no bad spring is left, and none otherwise. */
  lemma ArrangementsDone(springs: seq<Spring>, groups: seq<nat>, si: nat, gi: nat)
    requires gi == |groups|
    ensures Arrangements(springs, groups, si, gi) == if NoBad(springs, si) then 1 else 0
  {
  }

  /** With a group left and only good springs up to the end, there is no arrangement. */
  lemma ArrangementsPastEnd(springs: seq<Spring>, groups: seq<nat>, j: nat, gi: nat)
    requires gi < |groups| && j >= |springs|
    ensures Arrangements(springs, groups, j, gi) == 0
  {
    assert SkipGood(springs, j) == j;
  }

  /** At a spring that is not good, the count is the placed count plus, for an unknown spring, the skipped count. */
  lemma ArrangementsAt(springs: seq<Spring>, groups: seq<nat>, j: nat, gi: nat)
    requires gi < |groups| && j < |springs| && springs[j] != Good
    ensures Arrangements(springs, groups, j, gi) ==
      (if Placeable(springs, j, groups[gi]) then Arrangements(springs, groups, j + groups[gi] + 1, gi + 1) else 0)
      + (if springs[j] == Unknown then Arrangements(springs, groups, j + 1, gi) else 0)
  {
  }

  /** Skipping the leading good springs does not change the count. */
  lemma SkipArrangements(springs: seq<Spring>, groups: seq<nat>, si: nat, gi: nat)
    requires gi < |groups|
    ensures Arrangements(springs, groups, si, gi) == Arrangements(springs, groups, SkipGood(springs, si), gi)
  {
    var j := SkipGood(springs, si);
    assert SkipGood(springs, j) == j;
  }

  /** The `std::find` for a bad spring from `si` on, when all groups are placed. */
  method FindNoBad(springs: seq<Spring>, si: nat) returns (none: bool)
    ensures none <==> NoBad(springs, si)
  {
    var k := |springs|;
    if si < |springs| {
      k := si;
      while k < |springs| && springs[k] != Bad
        invariant si <= k <= |springs|
        invariant forall m :: si <= m < k ==> springs[m] != Bad
      {
        k := k + 1;
      }
    }
    none := k == |springs|;
  }

  /** The loop skipping good springs. */
  method SkipGoodFrom(springs: seq<Spring>, si: nat) returns (j: nat)
    ensures j == SkipGood(springs, si)
  {
    j := si;
    while j < |springs| && springs[j] == Good
      invariant si <= j && SkipGood(springs, j) == SkipGood(springs, si)
      decreases |springs| - j
    {
      j := j + 1;
    }
  }

  /** Whether the group of length `g` can start at `j`: it fits, every spring in it can be bad, and the next one can be good. */
  method CanPlace(springs: seq<Spring>, j: nat, g: nat) returns (valid: bool)
    ensures valid <==> Placeable(springs, j, g)
  {
    if j + g > |springs| {
      return false;
    }
    valid := true;
    var i := j;
    while i < j + g
      invariant j <= i <= j + g
      invariant forall k :: j <= k < i ==> springs[k] != Good
    {
      if springs[i] == Good {
        valid := false;
        break;
      }
      i := i + 1;
    }
    i := j + g;
    if valid && i < |springs| && springs[i] == Bad {
      valid := false;
    }
  }

  /** The springs of a record repeated `n` times, copies separated by an unknown spring. */
  function RepeatSprings(s: seq<Spring>, n: int): seq<Spring>
    decreases n
  {
    if n <= 1 then s else RepeatSprings(s, n - 1) + [Unknown] + s
  }

  /** The groups of a record repeated `n` times. */
  function RepeatGroups(g: seq<nat>, n: int): seq<nat>
    decreases n
  {
    if n <= 1 then g else RepeatGroups(g, n - 1) + g
  }

  /** The repeated springs have `n` copies and `n - 1` separators. */
  lemma {:induction false} RepeatSpringsLength(s: seq<Spring>, n: nat)
    requires n >= 1
    ensures |RepeatSprings(s, n)| == n * (|s| + 1) - 1
  {
    if n > 1 {
      RepeatSpringsLength(s, n - 1);
    }
  }

  /** `a + b` copies of the springs are `a` copies, an unknown, then `b` copies. */
  lemma {:induction false} RepeatSpringsSplit(s: seq<Spring>, a: nat, b: nat)
    requires a >= 1 && b >= 1
    ensures RepeatSprings(s, a + b) == RepeatSprings(s, a) + [Unknown] + RepeatSprings(s, b)
    decreases b
  {
    if b > 1 {
      RepeatSpringsSplit(s, a, b - 1);
    }
  }

  /** The repeated groups have `n` copies. */
  lemma {:induction false} RepeatGroupsLength(g: seq<nat>, n: nat)
    requires n >= 1
    ensures |RepeatGroups(g, n)| == n * |g|
  {
    if n > 1 {
      RepeatGroupsLength(g, n - 1);
    }
  }

  /** `a + b` copies of the groups are `a` copies followed by `b` copies. */
  lemma {:induction false} RepeatGroupsSplit(g: seq<nat>, a: nat, b: nat)
    requires a >= 1 && b >= 1
    ensures RepeatGroups(g, a + b) == RepeatGroups(g, a) + RepeatGroups(g, b)
    decreases b
  {
    if b > 1 {
      RepeatGroupsSplit(g, a, b - 1);
    }
  }

  /** A count of one or less leaves the record as it is. */
  lemma RepeatOnce(s: seq<Spring>, g: seq<nat>, n: int)
    requires n <= 1
    ensures RepeatSprings(s, n) == s && RepeatGroups(g, n) == g
  {
  }

  /** A record with no unknown spring has at most one arrangement: every choice is forced. */
  lemma {:induction false} KnownAtMostOne(springs: seq<Spring>, groups: seq<nat>, si: nat, gi: nat)
    requires gi <= |groups|
    requires forall k :: 0 <= k < |springs| ==> springs[k] != Unknown
    ensures Arrangements(springs, groups, si, gi) <= 1
    decreases |groups| - gi, Remaining(springs, si)
  {
    if gi < |groups| {
      var j := SkipGood(springs, si);
      if j < |springs| {
        var end := j + groups[gi];
        if end <= |springs| && Fits(springs, j, groups[gi]) && !(end < |springs| && springs[end] == Bad) {
          KnownAtMostOne(springs, groups, end + 1, gi + 1);
        }
      }
    }
  }

  /** With groups left and only good springs ahead, there is no arrangement. */
  lemma ExhaustedNone(springs: seq<Spring>, groups: seq<nat>, si: nat, gi: nat)
    requires gi < |groups|
    requires forall k :: si <= k < |springs| ==> springs[k] == Good
    ensures Arrangements(springs, groups, si, gi) == 0
  {
    var j := SkipGood(springs, si);
    assert j >= |springs|;
  }

  /** "???.### 1,1,3" has exactly one arrangement. */
  lemma ExampleOne()
    ensures Arrangements([Unknown, Unknown, Unknown, Good, Bad, Bad, Bad], [1, 1, 3], 0, 0) == 1
  {
    var springs, groups := [Unknown, Unknown, Unknown, Good, Bad, Bad, Bad], [1, 1, 3];
    assert Arrangements(springs, groups, 8, 3) == 1;
    assert Arrangements(springs, groups, 4, 2) == 1;
    assert SkipGood(springs, 3) == 4;
    assert Arrangements(springs, groups, 4, 1) == 0;
    assert Arrangements(springs, groups, 3, 1) == 0;
    assert Arrangements(springs, groups, 2, 1) == 1;
    assert Arrangements(springs, groups, 3, 0) == 0;
    assert Arrangements(springs, groups, 2, 0) == 0;
    assert Arrangements(springs, groups, 1, 0) == 0;
  }
}
