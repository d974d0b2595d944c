/**
 * 2024 day 2 (2024/src/day02.hpp): reactor reports. A report is safe when
 * its levels move in one direction by steps of 1 to 3; the problem
 * dampener also accepts a report that becomes safe once one level is
 * dropped.
 */
module Y2024Day02 {

  /** The step from level i to level i + 1. */
  function Step(levels: seq<int>, i: nat): int
    requires i + 1 < |levels|
  {
    levels[i + 1] - levels[i]
  }

  /**
   * What `is_safe` checks: the direction is fixed by the first step, and
   * every step is nonzero, goes that way and is at most 3 in size.
   */
  predicate Safe(levels: seq<int>)
    requires |levels| >= 2
  {
    var increasing := levels[1] > levels[0];
    forall i :: 0 <= i < |levels| - 1 ==>
      Step(levels, i) != 0 && (Step(levels, i) > 0) == increasing && -3 <= Step(levels, i) <= 3
  }

  /** The puzzle's wording: all steps rise by 1 to 3, or all fall by 1 to 3. */
  predicate GraduallyMonotone(levels: seq<int>)
  {
    (forall i :: 0 <= i < |levels| - 1 ==> 1 <= levels[i + 1] - levels[i] <= 3) ||
    (forall i :: 0 <= i < |levels| - 1 ==> 1 <= levels[i] - levels[i + 1] <= 3)
  }

  /** The check agrees with the puzzle's wording. */
  lemma SafeIffGraduallyMonotone(levels: seq<int>)
    requires |levels| >= 2
    ensures Safe(levels) <==> GraduallyMonotone(levels)
  {
    if GraduallyMonotone(levels) {
      assert Step(levels, 0) == levels[1] - levels[0];
      forall i | 0 <= i < |levels| - 1
        ensures Step(levels, i) != 0 && (Step(levels, i) > 0) == (levels[1] > levels[0]) && -3 <= Step(levels, i) <= 3
      {
        assert Step(levels, i) == levels[i + 1] - levels[i];
      }
    }
    if Safe(levels) {
      if levels[1] > levels[0] {
        forall i | 0 <= i < |levels| - 1 ensures 1 <= levels[i + 1] - levels[i] <= 3 {
          assert Step(levels, i) == levels[i + 1] - levels[i];
        }
      } else {
        forall i | 0 <= i < |levels| - 1 ensures 1 <= levels[i] - levels[i + 1] <= 3 {
          assert Step(levels, i) == levels[i + 1] - levels[i];
        }
      }
    }
  }

  /** `is_safe`: the loop stops at the first bad step. `levels.at(1)` demands two levels. */
  method IsSafe(levels: seq<int>) returns (safe: bool)
    requires |levels| >= 2
    ensures safe == Safe(levels)
  {
    var increasing := levels[1] > levels[0];
    for i := 0 to |levels| - 1
      invariant forall k :: 0 <= k < i ==>
        Step(levels, k) != 0 && (Step(levels, k) > 0) == increasing && -3 <= Step(levels, k) <= 3
    {
      var diff := levels[i + 1] - levels[i];
      assert Step(levels, i) == diff;
      if diff == 0 {
        return false;
      }
      if increasing != (diff > 0) {
        return false;
      }
      if diff > 3 || diff < -3 {
        return false;
      }
    }
    return true;
  }

  /** The report without level i. */
  function Without(levels: seq<int>, i: nat): (r: seq<int>)
    requires i < |levels|
    ensures |r| == |levels| - 1
  {
    levels[..i] + levels[i + 1..]
  }

  /** What `is_safe_with_dampener` checks: dropping some single level makes the report safe. */
  predicate SafeWithDampener(levels: seq<int>)
    requires |levels| >= 3
  {
    exists i :: 0 <= i < |levels| && Safe(Without(levels, i))
  }

  /**
   * `is_safe_with_dampener`: `adjusted` starts as the report without its
   * first level; writing level i into slot i turns the report without
   * level i into the report without level i + 1. Every adjusted report
   * goes to `is_safe`, which needs two levels, so the report has three.
   */
  method IsSafeWithDampener(levels: seq<int>) returns (safe: bool)
    requires |levels| >= 3
    ensures safe == SafeWithDampener(levels)
  {
    var adjusted := new int[|levels| - 1](k requires 0 <= k < |levels| - 1 => levels[k + 1]);
    assert adjusted[..] == Without(levels, 0);
    for i := 0 to |levels|
      invariant i < |levels| ==> adjusted[..] == Without(levels, i)
      invariant forall k :: 0 <= k < i ==> !Safe(Without(levels, k))
    {
      safe := IsSafe(adjusted[..]);
      if safe {
        return;
      }
      if i < adjusted.Length {
        ghost var before := adjusted[..];
        adjusted[i] := levels[i];
        assert adjusted[..] == before[i := levels[i]];
        WithoutNext(levels, i);
      }
    }
    return false;
  }

  /** Putting level i back into slot i of the report without level i drops level i + 1 instead. */
  lemma WithoutNext(levels: seq<int>, i: nat)
    requires i + 1 < |levels|
    ensures Without(levels, i)[i := levels[i]] == Without(levels, i + 1)
  {
    var a, b := Without(levels, i)[i := levels[i]], Without(levels, i + 1);
    forall k | 0 <= k < |a| ensures a[k] == b[k] {
      if k < i {
        assert a[k] == levels[k] == b[k];
      } else if k > i {
        assert a[k] == levels[k + 1] == b[k];
      }
    }
  }

  /** Without the first level, the steps of a safe report are its later steps. */
  lemma SafeDropFirst(levels: seq<int>)
    requires |levels| >= 3 && Safe(levels)
    ensures Safe(levels[1..])
  {
    var rest := levels[1..];
    assert Step(levels, 0) == levels[1] - levels[0];
    assert Step(levels, 1) == rest[1] - rest[0];
    forall i | 0 <= i < |rest| - 1 ensures Step(rest, i) == Step(levels, i + 1) {
    }
  }

  /** A safe report of three or more levels stays safe without its first level, so the dampener accepts it. */
  lemma SafeImpliesDampened(levels: seq<int>)
    requires |levels| >= 3 && Safe(levels)
    ensures SafeWithDampener(levels)
  {
    assert Without(levels, 0) == levels[1..];
    SafeDropFirst(levels);
  }

  /** The worked examples: 7 6 4 2 1 is safe; 1 3 2 4 5 is safe only by dropping the 3. */
  lemma Examples()
    ensures Safe([7, 6, 4, 2, 1])
    ensures !Safe([1, 3, 2, 4, 5]) && SafeWithDampener([1, 3, 2, 4, 5])
  {
    var r := [1, 3, 2, 4, 5];
    assert Step(r, 1) == -1;
    assert Without(r, 1) == [1, 2, 4, 5];
    assert Safe(Without(r, 1));
  }
}
