/**
 * 2023 day 19 (2023/src/day19.hpp): workflows of rules that send machine
 * parts (four ratings x, m, a, s) to other workflows, and the rating
 * ranges a path of conditions leaves open.
 */
module Y2023Day19 {
  import opened AocLib

  /** A part: its four ratings x, m, a, s. */
  type Part = p: seq<int> | |p| == 4 witness [0, 0, 0, 0]

  /** Which rating a condition looks at. */
  type RatingIndex = i: int | 0 <= i < 4

  /** `rating > threshold` when `greater`, else `rating < threshold`. */
  datatype Condition = Condition(greater: bool, ratingIdx: RatingIndex, threshold: int)
  {
    /** `matches` on one rating value. */
    predicate Holds(v: int)
    {
      if greater then v > threshold else v < threshold
    }

    /** `matches`. */
    predicate Matches(part: Part)
    {
      Holds(part[ratingIdx])
    }

    /** `invert`: the opposite comparison, with the threshold moved by one so that integers split exactly. */
    function Invert(): (c: Condition)
      ensures c.greater == !greater && c.ratingIdx == ratingIdx
    {
      Condition(!greater, ratingIdx, threshold + (if greater then 1 else -1))
    }
  }

  /** For every part, exactly one of a condition and its inversion matches. */
  lemma InvertComplements(c: Condition, part: Part)
    ensures c.Invert().Matches(part) <==> !c.Matches(part)
  {
  }

  /** Inverting twice gives the condition back. */
  lemma InvertInvolution(c: Condition)
    ensures c.Invert().Invert() == c
  {
  }

  /** A rule: an optional condition and the workflow (or A/R) to send the part to. */
  datatype Rule = Rule(condition: Option<Condition>, dest: string)
  {
    /** `matches`: a rule without a condition always matches. */
    predicate Matches(part: Part)
    {
      condition.None? || condition.value.Matches(part)
    }
  }

  lemma UnconditionalMatches(r: Rule, part: Part)
    requires r.condition.None?
    ensures r.Matches(part)
  {
  }

  datatype Workflow = Workflow(name: string, rules: seq<Rule>)

  /** The index of the first rule that matches (`find_if`), or |rules|. */
  function FirstMatch(rules: seq<Rule>, part: Part): (i: nat)
    ensures i <= |rules| && (i < |rules| ==> rules[i].Matches(part))
    ensures forall k :: 0 <= k < i ==> !rules[k].Matches(part)
  {
    if rules == [] || rules[0].Matches(part) then 0 else 1 + FirstMatch(rules[1..], part)
  }

  /**
   * `lookup`: the destination of the first rule that matches. The source
   * dereferences the found rule, so some rule must match (every workflow
   * ends in an unconditional rule).
   */
  function Lookup(w: Workflow, part: Part): (dest: string)
    requires exists i :: 0 <= i < |w.rules| && w.rules[i].Matches(part)
    ensures exists i :: 0 <= i < |w.rules| && w.rules[i].Matches(part) && dest == w.rules[i].dest
                     && forall k :: 0 <= k < i ==> !w.rules[k].Matches(part)
  {
    var i := FirstMatch(w.rules, part);
    assert i < |w.rules|;
    w.rules[i].dest
  }

  /** A workflow ending in an unconditional rule always has a destination for a part. */
  lemma LastRuleCatches(w: Workflow, part: Part)
    requires |w.rules| > 0 && w.rules[|w.rules| - 1].condition.None?
    ensures exists i :: 0 <= i < |w.rules| && w.rules[i].Matches(part)
  {
    assert w.rules[|w.rules| - 1].Matches(part);
  }

  /**
   * `get_condition` on the edge from a conditional rule of workflow `from`
   * to key `to`: staying in the same workflow (the next rule) needs the
   * condition to fail, leaving for the rule's destination needs it to hold.
   */
  function EdgeCondition(rule: Rule, from: string, to: string): Option<Condition>
  {
    match rule.condition
    case None => None
    case Some(c) => if from == to then Some(c.Invert()) else Some(c)
  }

  /** The condition put on the path is exactly what a part needs to take that edge. */
  lemma EdgeConditionMeaning(rule: Rule, from: string, to: string, part: Part)
    requires rule.condition.Some?
    ensures EdgeCondition(rule, from, to).Some?
    ensures from == to ==> (EdgeCondition(rule, from, to).value.Matches(part) <==> !rule.Matches(part))
    ensures from != to ==> (EdgeCondition(rule, from, to).value.Matches(part) <==> rule.Matches(part))
  {
    InvertComplements(rule.condition.value, part);
  }

  /** The bounds a rating range takes after one more condition. */
  function Narrow(bounds: (int, int), c: Condition): (r: (int, int))
    ensures r.0 >= bounds.0 && r.1 <= bounds.1
  {
    if c.greater then (Max(bounds.0, c.threshold + 1), bounds.1) else (bounds.0, Min(bounds.1, c.threshold - 1))
  }

  /** `size`: the number of integers from start to end. */
  function SizeOf(bounds: (int, int)): nat
  {
    if bounds.0 > bounds.1 then 0 else bounds.1 - bounds.0 + 1
  }

  /** A rating range, initially 1 to 4000. */
  class Range {
    var start: int
    var end: int

    constructor ()
      ensures start == 1 && end == 4000
    {
      start := 1;
      end := 4000;
    }

    function Bounds(): (int, int)
      reads this
    {
      (start, end)
    }

    /** `add_condition`: the range only narrows. */
    method AddCondition(c: Condition)
      modifies this
      ensures Bounds() == Narrow(old(Bounds()), c)
      ensures start >= old(start) && end <= old(end)
    {
      if c.greater {
        start := Max(start, c.threshold + 1);
      } else {
        end := Min(end, c.threshold - 1);
      }
    }

    /** `size`. */
    method Size() returns (n: int)
      ensures n == SizeOf(Bounds())
      ensures n >= 0 && (n > 0 <==> start <= end)
    {
      if start > end {
        return 0;
      }
      return end - start + 1;
    }
  }

  /** The bounds rating `k` is left with after the conditions of a path, from 1 to 4000. */
  function Narrowed(conds: seq<Condition>, k: RatingIndex): (int, int)
  {
    if conds == [] then (1, 4000)
    else
      var prev := Narrowed(conds[..|conds| - 1], k);
      var c := conds[|conds| - 1];
      if c.ratingIdx == k then Narrow(prev, c) else prev
  }

  /** A rating value is in the narrowed range exactly when it is in 1 .. 4000 and every condition on that rating holds. */
  lemma {:induction false} NarrowedMembership(conds: seq<Condition>, k: RatingIndex, v: int)
    ensures var b := Narrowed(conds, k);
      b.0 <= v <= b.1 <==> 1 <= v <= 4000 && forall i :: 0 <= i < |conds| && conds[i].ratingIdx == k ==> conds[i].Holds(v)
  {
    if conds != [] {
      var init := conds[..|conds| - 1];
      NarrowedMembership(init, k, v);
      assert forall i :: 0 <= i < |init| ==> init[i] == conds[i];
    }
  }

  /** `count_combinations`: the product of the sizes of the four narrowed ranges. */
  method CountCombinations(conditions: seq<Condition>) returns (count: int)
    ensures count == SizeOf(Narrowed(conditions, 0)) * SizeOf(Narrowed(conditions, 1))
      * SizeOf(Narrowed(conditions, 2)) * SizeOf(Narrowed(conditions, 3))
  {
    var r0 := new Range();
    var r1 := new Range();
    var r2 := new Range();
    var r3 := new Range();
    var ranges := [r0, r1, r2, r3];
    for i := 0 to |conditions|
      invariant forall k :: 0 <= k < 4 ==> ranges[k].Bounds() == Narrowed(conditions[..i], k)
    {
      var c := conditions[i];
      assert conditions[..i + 1][..i] == conditions[..i];
      ranges[c.ratingIdx].AddCondition(c);
    }
    assert conditions[..|conditions|] == conditions;
    count := 1;
    for k := 0 to 4
      invariant count == Product(conditions, k)
      invariant forall j :: 0 <= j < 4 ==> ranges[j].Bounds() == Narrowed(conditions, j)
    {
      var n := ranges[k].Size();
      count := count * n;
    }
    assert Product(conditions, 4) == Product(conditions, 3) * SizeOf(Narrowed(conditions, 3));
    assert Product(conditions, 2) == SizeOf(Narrowed(conditions, 0)) * SizeOf(Narrowed(conditions, 1));
  }

  /** The product of the sizes of the first `k` narrowed ranges. */
  function Product(conds: seq<Condition>, k: nat): int
    requires k <= 4
  {
    if k == 0 then 1 else Product(conds, k - 1) * SizeOf(Narrowed(conds, k - 1))
  }

  /** A path without conditions leaves all 4000^4 combinations. */
  lemma NoConditions()
    ensures SizeOf(Narrowed([], 0)) * SizeOf(Narrowed([], 1)) * SizeOf(Narrowed([], 2)) * SizeOf(Narrowed([], 3))
      == 4000 * 4000 * 4000 * 4000
  {
  }
}
