/**
 * 2023 day 9 (2023/src/day09.hpp): the sequence of differences between
 * consecutive readings of a history.
 */
module Y2023Day09 {

  /** `diff`: element i is `v[i + 1] - v[i]`; the source asserts at least two readings. */
  method Diff(v: seq<int>) returns (d: seq<int>)
    requires |v| > 1
    ensures |d| == |v| - 1
    ensures forall i :: 0 <= i < |d| ==> d[i] == v[i + 1] - v[i]
    ensures d == Differences(v)
  {
    d := [];
    for i := 0 to |v| - 1
      invariant |d| == i
      invariant forall k :: 0 <= k < i ==> d[k] == v[k + 1] - v[k]
    {
      d := d + [v[i + 1] - v[i]];
    }
  }

  /** The differences as a value, for the lemmas. */
  function Differences(v: seq<int>): (d: seq<int>)
    requires |v| > 0
    ensures |d| == |v| - 1
  {
    seq(|v| - 1, i requires 0 <= i < |v| - 1 => v[i + 1] - v[i])
  }

  /** The running sums of `d` starting from `first`: the inverse of taking differences. */
  function Integrate(first: int, d: seq<int>): (v: seq<int>)
    ensures |v| == |d| + 1 && v[0] == first
  {
    if d == [] then [first] else Integrate(first, d[..|d| - 1]) + [Integrate(first, d[..|d| - 1])[|d| - 1] + d[|d| - 1]]
  }

  /** A history is its first reading followed by the running sums of its differences. */
  lemma {:induction false} IntegrateDifferences(v: seq<int>)
    requires |v| > 0
    ensures Integrate(v[0], Differences(v)) == v
  {
    if |v| > 1 {
      var init := v[..|v| - 1];
      IntegrateDifferences(init);
      assert Differences(v)[..|v| - 2] == Differences(init);
    }
  }

  /** Taking the differences of running sums gives the summands back. */
  lemma {:induction false} DifferencesIntegrate(first: int, d: seq<int>)
    ensures Differences(Integrate(first, d)) == d
  {
    if d != [] {
      DifferencesIntegrate(first, d[..|d| - 1]);
    }
  }

  /** A constant history has only zero differences, and only a constant one does. */
  lemma ConstantIffZeroDifferences(v: seq<int>)
    requires |v| > 0
    ensures (forall i :: 0 <= i < |v| ==> v[i] == v[0]) <==> (forall i :: 0 <= i < |v| - 1 ==> Differences(v)[i] == 0)
  {
    if forall i :: 0 <= i < |v| - 1 ==> Differences(v)[i] == 0 {
      IntegrateDifferences(v);
      ZeroIntegrate(v[0], Differences(v));
    }
  }

  /** Running sums of zeros stay at the start value. */
  lemma {:induction false} ZeroIntegrate(first: int, d: seq<int>)
    requires forall i :: 0 <= i < |d| ==> d[i] == 0
    ensures forall i :: 0 <= i <= |d| ==> Integrate(first, d)[i] == first
  {
    if d != [] {
      ZeroIntegrate(first, d[..|d| - 1]);
    }
  }
}
