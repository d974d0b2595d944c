/**
 * 2024 day 1 (2024/src/day01.hpp): the two location lists, and the
 * run-length count of a sorted list used to score their similarity.
 */
module Y2024Day01 {

  /** A value and how many times in a row it occurs. */
  datatype Run = Run(value: int, count: nat)

  /** `count` copies of `value`. */
  function Repeat(value: int, count: nat): (s: seq<int>)
    ensures |s| == count && forall k :: 0 <= k < count ==> s[k] == value
  {
    seq(count, _ => value)
  }

  /** The list a run-length encoding stands for. */
  function Decode(runs: seq<Run>): seq<int>
  {
    if runs == [] then [] else Decode(runs[..|runs| - 1]) + Repeat(runs[|runs| - 1].value, runs[|runs| - 1].count)
  }

  /** Every run is non-empty and neighbouring runs hold different values. */
  predicate Maximal(runs: seq<Run>)
  {
    (forall k :: 0 <= k < |runs| ==> runs[k].count >= 1) &&
    (forall k :: 0 <= k < |runs| - 1 ==> runs[k].value != runs[k + 1].value)
  }

  /** The total of the counts. */
  function Total(runs: seq<Run>): nat
  {
    if runs == [] then 0 else Total(runs[..|runs| - 1]) + runs[|runs| - 1].count
  }

  lemma {:induction false} DecodeLength(runs: seq<Run>)
    ensures |Decode(runs)| == Total(runs)
  {
    if runs != [] {
      DecodeLength(runs[..|runs| - 1]);
    }
  }

  /**
   * `count_sorted`: each pass of the outer loop walks one run of equal
   * values and records the value with its length.
   */
  method CountSorted(vec: seq<int>) returns (counts: seq<Run>)
    ensures Decode(counts) == vec
    ensures Maximal(counts)
  {
    counts := [];
    var i := 0;
    while i < |vec|
      invariant 0 <= i <= |vec|
      invariant Decode(counts) == vec[..i] && Maximal(counts)
      invariant counts != [] ==> 0 < i && counts[|counts| - 1].value == vec[i - 1] && (i < |vec| ==> vec[i - 1] != vec[i])
    {
      var count := 1;
      ghost var start := i;
      while i + 1 < |vec| && vec[i] == vec[i + 1]
        invariant start <= i < |vec| && count == i - start + 1
        invariant forall k :: start <= k <= i ==> vec[k] == vec[start]
      {
        count := count + 1;
        i := i + 1;
      }
      assert vec[start..i + 1] == Repeat(vec[i], count);
      assert vec[..i + 1] == vec[..start] + vec[start..i + 1];
      ghost var before := counts;
      counts := counts + [Run(vec[i], count)];
      assert counts[..|counts| - 1] == before;
      i := i + 1;
    }
    assert vec[..|vec|] == vec;
  }

  predicate Sorted(s: seq<int>)
  {
    forall a, b :: 0 <= a < b < |s| ==> s[a] <= s[b]
  }

  /** The last element of a decoded list belongs to the last run. */
  lemma DecodeLast(runs: seq<Run>)
    requires runs != [] && runs[|runs| - 1].count >= 1
    ensures |Decode(runs)| >= 1 && Decode(runs)[|Decode(runs)| - 1] == runs[|runs| - 1].value
  {
  }

  /** On sorted input the recorded values strictly increase. */
  lemma {:induction false} SortedRunsIncrease(runs: seq<Run>)
    requires Maximal(runs) && Sorted(Decode(runs))
    ensures forall a, b :: 0 <= a < b < |runs| ==> runs[a].value < runs[b].value
  {
    if |runs| >= 2 {
      var init, last := runs[..|runs| - 1], runs[|runs| - 1];
      var d := Decode(init);
      var all := Decode(runs);
      assert all == d + Repeat(last.value, last.count);
      assert Sorted(d) by {
        forall a, b | 0 <= a < b < |d| ensures d[a] <= d[b] {
          assert d[a] == all[a] && d[b] == all[b];
        }
      }
      assert Maximal(init);
      SortedRunsIncrease(init);
      DecodeLast(init);
      assert all[|d|] == last.value && all[|d| - 1] == init[|init| - 1].value;
      assert init[|init| - 1].value < last.value;
    }
  }

  /**
   * `read_input`: the numbers of the input, read two at a time into the
   * left and right lists for as long as a whole pair is there. The stream
   * is given as the sequence of numbers it yields.
   */
  method ReadInput(numbers: seq<int>) returns (left: seq<int>, right: seq<int>)
    ensures |left| == |right| == |numbers| / 2
    ensures forall k :: 0 <= k < |left| ==> left[k] == numbers[2 * k] && right[k] == numbers[2 * k + 1]
  {
    left, right := [], [];
    var pos := 0;
    while pos + 1 < |numbers|
      invariant pos == 2 * |left| && |left| == |right| && pos <= |numbers|
      invariant forall k :: 0 <= k < |left| ==> left[k] == numbers[2 * k] && right[k] == numbers[2 * k + 1]
      decreases |numbers| - pos
    {
      left := left + [numbers[pos]];
      right := right + [numbers[pos + 1]];
      pos := pos + 2;
    }
  }

  /** The two lists interleave back to the numbers read, less an unpaired last one. */
  function Interleave(left: seq<int>, right: seq<int>): (s: seq<int>)
    requires |left| == |right|
    ensures |s| == 2 * |left|
  {
    if left == [] then [] else Interleave(left[..|left| - 1], right[..|right| - 1]) + [left[|left| - 1], right[|right| - 1]]
  }

  lemma {:induction false} InterleaveReadInput(numbers: seq<int>, left: seq<int>, right: seq<int>)
    requires |left| == |right| == |numbers| / 2
    requires forall k :: 0 <= k < |left| ==> left[k] == numbers[2 * k] && right[k] == numbers[2 * k + 1]
    ensures Interleave(left, right) == numbers[..2 * |left|]
  {
    if left != [] {
      var n := |left| - 1;
      InterleaveReadInput(numbers[..2 * n], left[..n], right[..n]);
      assert numbers[..2 * n][..2 * n] == numbers[..2 * n];
      assert numbers[..2 * |left|] == numbers[..2 * n] + [numbers[2 * n], numbers[2 * n + 1]];
    }
  }

  /** The worked example's left list 3 4 2 1 3 3 sorted is 1 2 3 3 3 4, counted as (1,1) (2,1) (3,3) (4,1). */
  lemma ExampleCounts()
    ensures Decode([Run(1, 1), Run(2, 1), Run(3, 3), Run(4, 1)]) == [1, 2, 3, 3, 3, 4]
  {
    var r := [Run(1, 1), Run(2, 1), Run(3, 3), Run(4, 1)];
    assert r[..3][..2] == r[..2] && r[..2][..1] == r[..1] && r[..1][..0] == [];
    assert Decode(r[..1]) == [1];
    assert Decode(r[..2]) == [1, 2];
    assert Repeat(3, 3) == [3, 3, 3];
    assert Decode(r[..3]) == [1, 2, 3, 3, 3];
  }
}
