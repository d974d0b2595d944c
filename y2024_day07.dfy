/**
 * 2024 day 7 (2024/src/day07.hpp): bridge calibration. An equation is
 * valid when its operands, combined left to right with +, * and (in part
 * 2) decimal concatenation, can make the test value. The source checks
 * this backwards from the test value, undoing one operator per operand.
 *
 * The operands of the puzzle are positive; every operation of the model
 * relies on that (the backward search divides by operands).
 */
module Y2024Day07 {
  import opened AocMath

  datatype Equation = Equation(testValue: int, operands: seq<int>)

  predicate Positive(operands: seq<int>)
  {
    forall k :: 0 <= k < |operands| ==> operands[k] >= 1
  }

  /**
   * `next_power_of_10`: the smallest power of ten above x, the factor that
   * shifts a number left past x's digits.
   */
  function NextPowerOf10(x: nat): (p: nat)
    ensures x < p
  {
    DigitCountBounds(x);
    PowTenPositive(DigitCount(x));
    Pow(10, DigitCount(x))
  }

  /** Decimal concatenation `a || b` of the puzzle, for b >= 0. */
  function Concat(a: int, b: nat): int
  {
    a * NextPowerOf10(b) + b
  }

  /**
   * `is_valid_helper`: can `operands[..idx + 1]` make `target`? At index 0
   * only the first operand itself; otherwise undo a multiplication (when
   * the operand divides the target), a concatenation (when the target ends
   * in the operand's digits) or an addition. An operand larger than the
   * target ends the branch, since every operator only makes numbers
   * larger. The target stays positive whenever it is divided, so C++'s
   * truncating `/` and `%` agree with Dafny's.
   */
  function IsValidHelper(operands: seq<int>, useConcat: bool, target: int, idx: nat): bool
    requires idx < |operands| && Positive(operands)
    decreases idx
  {
    if idx == 0 then target == operands[0]
    else
      var operand := operands[idx];
      if operand > target then false
      else if target % operand == 0 && IsValidHelper(operands, useConcat, target / operand, idx - 1) then true
      else if useConcat && target % NextPowerOf10(operand) == operand
              && IsValidHelper(operands, useConcat, target / NextPowerOf10(operand), idx - 1) then true
      else IsValidHelper(operands, useConcat, target - operand, idx - 1)
  }

  /** `Equation::is_valid`: the backward search from the test value over all operands. */
  function IsValid(eqn: Equation, useConcat: bool): bool
    requires |eqn.operands| >= 1 && Positive(eqn.operands)
  {
    IsValidHelper(eqn.operands, useConcat, eqn.testValue, |eqn.operands| - 1)
  }

  /**
   * The forward reference: every value `operands[..idx + 1]` can make,
   * evaluating left to right.
   */
  function Values(operands: seq<int>, useConcat: bool, idx: nat): set<int>
    requires idx < |operands| && Positive(operands)
  {
    if idx == 0 then {operands[0]}
    else
      var prev := Values(operands, useConcat, idx - 1);
      var op := operands[idx];
      (set w | w in prev :: w + op) + (set w | w in prev :: w * op)
      + (if useConcat then set w | w in prev :: Concat(w, op) else {})
  }

  /** Every value made is positive and at least the last operand used. */
  lemma {:induction false} ValuesAtLeast(operands: seq<int>, useConcat: bool, idx: nat)
    requires idx < |operands| && Positive(operands)
    ensures forall v :: v in Values(operands, useConcat, idx) ==> v >= 1 && v >= operands[idx]
  {
    if idx > 0 {
      ValuesAtLeast(operands, useConcat, idx - 1);
      var op := operands[idx];
      forall w | w in Values(operands, useConcat, idx - 1)
        ensures w * op >= op && Concat(w, op) >= op
      {
        assert w * op >= 1 * op;
        assert w * NextPowerOf10(op) >= 0;
      }
    }
  }

  lemma MulAtLeast(k: int, d: int)
    requires d > 0
    ensures k >= 1 ==> k * d >= d
  {
    if k >= 1 {
      assert (k - 1) * d >= 0;
    }
  }

  /** Division with remainder is unique. */
  lemma DivModUnique(t: int, d: int, q: int, r: int)
    requires d > 0 && 0 <= r < d
    ensures t == q * d + r <==> (t / d == q && t % d == r)
  {
    if t == q * d + r {
      var q', r' := t / d, t % d;
      assert (q - q') * d == r' - r;
      assert (q' - q) * d == r - r';
      MulAtLeast(q - q', d);
      MulAtLeast(q' - q, d);
    }
  }

  lemma MemberSum(prev: set<int>, op: int, target: int)
    ensures target in (set w | w in prev :: w + op) <==> target - op in prev
  {
    if target - op in prev {
      assert (target - op) + op == target;
    }
  }

  lemma MemberProduct(prev: set<int>, op: int, target: int)
    requires op > 0
    ensures target in (set w | w in prev :: w * op) <==> (target % op == 0 && target / op in prev)
  {
    DivModUnique(target, op, target / op, 0);
    forall w | w in prev ensures w * op == target <==> (target % op == 0 && target / op == w) {
      DivModUnique(target, op, w, 0);
    }
  }

  lemma MemberConcat(prev: set<int>, op: nat, target: int)
    ensures var p := NextPowerOf10(op);
      target in (set w | w in prev :: Concat(w, op)) <==> (target % p == op && target / p in prev)
  {
    var p := NextPowerOf10(op);
    DivModUnique(target, p, target / p, op);
    forall w | w in prev ensures Concat(w, op) == target <==> (target % p == op && target / p == w) {
      DivModUnique(target, p, w, op);
    }
  }

  /** The values one step on, read backwards: which predecessor each operator needs. */
  lemma ValuesStep(operands: seq<int>, useConcat: bool, target: int, idx: nat)
    requires 0 < idx < |operands| && Positive(operands)
    ensures var op, prev, p := operands[idx], Values(operands, useConcat, idx - 1), NextPowerOf10(operands[idx]);
      target in Values(operands, useConcat, idx) <==>
        (target % op == 0 && target / op in prev) || (useConcat && target % p == op && target / p in prev) || target - op in prev
  {
    var op, prev := operands[idx], Values(operands, useConcat, idx - 1);
    MemberSum(prev, op, target);
    MemberProduct(prev, op, target);
    MemberConcat(prev, op, target);
  }

  /** The backward search answers exactly whether the target is among the forward values. */
  lemma {:induction false} IsValidHelperCorrect(operands: seq<int>, useConcat: bool, target: int, idx: nat)
    requires idx < |operands| && Positive(operands)
    ensures IsValidHelper(operands, useConcat, target, idx) <==> target in Values(operands, useConcat, idx)
    decreases idx
  {
    if idx > 0 {
      var op := operands[idx];
      if op > target {
        ValuesAtLeast(operands, useConcat, idx);
      } else {
        var p := NextPowerOf10(op);
        var byProduct := target % op == 0 && IsValidHelper(operands, useConcat, target / op, idx - 1);
        var byConcat := useConcat && target % p == op && IsValidHelper(operands, useConcat, target / p, idx - 1);
        var bySum := IsValidHelper(operands, useConcat, target - op, idx - 1);
        assert IsValidHelper(operands, useConcat, target, idx) == (byProduct || byConcat || bySum);
        var prev := Values(operands, useConcat, idx - 1);
        IsValidHelperCorrect(operands, useConcat, target / op, idx - 1);
        assert byProduct == (target % op == 0 && target / op in prev);
        IsValidHelperCorrect(operands, useConcat, target / p, idx - 1);
        assert byConcat == (useConcat && target % p == op && target / p in prev);
        IsValidHelperCorrect(operands, useConcat, target - op, idx - 1);
        assert bySum == (target - op in prev);
        ValuesStep(operands, useConcat, target, idx);
        assert target in Values(operands, useConcat, idx) <==> byProduct || byConcat || bySum;
        assert IsValidHelper(operands, useConcat, target, idx) <==> target in Values(operands, useConcat, idx);
      }
    }
  }

  /** An equation is valid exactly when its test value can be made from its operands. */
  lemma IsValidCorrect(eqn: Equation, useConcat: bool)
    requires |eqn.operands| >= 1 && Positive(eqn.operands)
    ensures IsValid(eqn, useConcat) <==> eqn.testValue in Values(eqn.operands, useConcat, |eqn.operands| - 1)
  {
    IsValidHelperCorrect(eqn.operands, useConcat, eqn.testValue, |eqn.operands| - 1);
  }

  /** Allowing concatenation only adds values. */
  lemma {:induction false} ValuesConcatGrows(operands: seq<int>, idx: nat)
    requires idx < |operands| && Positive(operands)
    ensures Values(operands, false, idx) <= Values(operands, true, idx)
  {
    if idx > 0 {
      ValuesConcatGrows(operands, idx - 1);
      StepGrows(Values(operands, false, idx - 1), Values(operands, true, idx - 1), operands[idx]);
    }
  }

  /** One step from fewer values without concatenation makes no more than one from more values with it. */
  lemma StepGrows(without: set<int>, with: set<int>, op: nat)
    requires without <= with
    ensures (set w | w in without :: w + op) + (set w | w in without :: w * op)
      <= (set w | w in with :: w + op) + (set w | w in with :: w * op) + (set w | w in with :: Concat(w, op))
  {
    var sums, products := set w | w in without :: w + op, set w | w in without :: w * op;
    forall v | v in sums + products
      ensures v in (set w | w in with :: w + op) + (set w | w in with :: w * op)
    {
      if v in sums {
        var w :| w in without && v == w + op;
        assert w in with;
      } else {
        var w :| w in without && v == w * op;
        assert w in with;
      }
    }
  }

  /** An equation valid without concatenation is valid with it. */
  lemma ValidWithoutConcatIsValidWith(eqn: Equation)
    requires |eqn.operands| >= 1 && Positive(eqn.operands)
    ensures IsValid(eqn, false) ==> IsValid(eqn, true)
  {
    IsValidCorrect(eqn, false);
    IsValidCorrect(eqn, true);
    ValuesConcatGrows(eqn.operands, |eqn.operands| - 1);
  }

  /** An operand larger than the target it must help make ends the branch. */
  lemma OperandTooLarge(operands: seq<int>, useConcat: bool, target: int, idx: nat)
    requires 0 < idx < |operands| && Positive(operands) && operands[idx] > target
    ensures target !in Values(operands, useConcat, idx)
  {
    ValuesAtLeast(operands, useConcat, idx);
  }

  /** Concatenation appends the digits: 15 || 6 is 156 and 12 || 345 is 12345. */
  lemma ConcatExamples()
    ensures Concat(15, 6) == 156 && Concat(12, 345) == 12345
  {
    assert DigitCount(6) == 1;
    assert DigitCount(345) == 3 by {
      assert DigitCount(34) == 2;
    }
  }
}
