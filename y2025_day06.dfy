/**
 * 2025 day 6 (2025/src/day06.hpp): cephalopod math worksheets. Each
 * problem is a list of numbers and one operation, `+` or `*`; its answer
 * folds the operation over the numbers, starting from the operation's
 * identity.
 */
module Y2025Day06 {

  datatype Operation = Plus | Times

  /** The worksheet character of an operation. */
  function Symbol(op: Operation): (c: char)
    ensures c == '+' <==> op == Plus
    ensures c == '*' <==> op == Times
  {
    match op
    case Plus => '+'
    case Times => '*'
  }

  /** `Operator::init`: 1 for TIMES, 0 for PLUS. */
  function Init(op: Operation): (v: int)
    ensures forall a :: Apply(op, v, a) == a && Apply(op, a, v) == a
  {
    if op == Times then 1 else 0
  }

  /** `Operator::operator()`: a + b for PLUS, a * b otherwise. */
  function Apply(op: Operation, a: int, b: int): int
  {
    if op == Plus then a + b else a * b
  }

  datatype MathProblem = MathProblem(inputs: seq<int>, op: Operation)

  /** Folding the operation over `xs` from the left, starting at `acc`. */
  function FoldLeft(op: Operation, acc: int, xs: seq<int>): int
    decreases |xs|
  {
    if xs == [] then acc else FoldLeft(op, Apply(op, acc, xs[0]), xs[1..])
  }

  /**
   * `MathProblem::calculate`: `std::reduce` from `init()`. Reduce may
   * regroup and reorder the operands; both operations are associative and
   * commutative, so the left fold gives the same answer.
   */
  function Calculate(p: MathProblem): int
  {
    FoldLeft(p.op, Init(p.op), p.inputs)
  }

  /** The sum of the numbers, as the puzzle defines it. */
  function Sum(xs: seq<int>): int
  {
    if xs == [] then 0 else xs[0] + Sum(xs[1..])
  }

  /** The product of the numbers. */
  function Product(xs: seq<int>): int
  {
    if xs == [] then 1 else xs[0] * Product(xs[1..])
  }

  /** The reference answer: the sum or the product of the inputs. */
  function Answer(p: MathProblem): int
  {
    if p.op == Plus then Sum(p.inputs) else Product(p.inputs)
  }

  /** Both operations are associative. */
  lemma ApplyAssociative(op: Operation, a: int, b: int, c: int)
    ensures Apply(op, Apply(op, a, b), c) == Apply(op, a, Apply(op, b, c))
  {
    if op == Times {
      assert (a * b) * c == a * (b * c);
    }
  }

  /** A left fold from `acc` is `acc` combined with the reference answer. */
  lemma {:induction false} FoldLeftFromAcc(op: Operation, acc: int, xs: seq<int>)
    ensures FoldLeft(op, acc, xs) == Apply(op, acc, Answer(MathProblem(xs, op)))
    decreases |xs|
  {
    if xs != [] {
      var rest := MathProblem(xs[1..], op);
      FoldLeftFromAcc(op, Apply(op, acc, xs[0]), xs[1..]);
      ApplyAssociative(op, acc, xs[0], Answer(rest));
      assert Answer(MathProblem(xs, op)) == Apply(op, xs[0], Answer(rest));
    }
  }

  /** `calculate` is the sum of the inputs for `+` and their product for `*`. */
  lemma CalculateIsAnswer(p: MathProblem)
    ensures Calculate(p) == Answer(p)
    ensures p.op == Plus ==> Calculate(p) == Sum(p.inputs)
    ensures p.op == Times ==> Calculate(p) == Product(p.inputs)
  {
    FoldLeftFromAcc(p.op, Init(p.op), p.inputs);
  }

  /** A problem without numbers answers the identity of its operation. */
  lemma CalculateEmpty(op: Operation)
    ensures Calculate(MathProblem([], op)) == Init(op)
    ensures Calculate(MathProblem([], Plus)) == 0 && Calculate(MathProblem([], Times)) == 1
  {
  }

  /** The reference answer of a concatenation combines the answers of the two parts. */
  lemma {:induction false} AnswerAppend(op: Operation, xs: seq<int>, ys: seq<int>)
    ensures Answer(MathProblem(xs + ys, op))
      == Apply(op, Answer(MathProblem(xs, op)), Answer(MathProblem(ys, op)))
    decreases |xs|
  {
    if xs == [] {
      assert xs + ys == ys;
    } else {
      assert (xs + ys)[1..] == xs[1..] + ys;
      AnswerAppend(op, xs[1..], ys);
      ApplyAssociative(op, xs[0], Answer(MathProblem(xs[1..], op)), Answer(MathProblem(ys, op)));
    }
  }

  /** Answers compose: a problem split in two combines the answers of its halves. */
  lemma CalculateAppend(op: Operation, xs: seq<int>, ys: seq<int>)
    ensures Calculate(MathProblem(xs + ys, op))
      == Apply(op, Calculate(MathProblem(xs, op)), Calculate(MathProblem(ys, op)))
  {
    CalculateIsAnswer(MathProblem(xs + ys, op));
    CalculateIsAnswer(MathProblem(xs, op));
    CalculateIsAnswer(MathProblem(ys, op));
    AnswerAppend(op, xs, ys);
  }

  /** The worked example: 123 * 45 * 6 is 33210 and 328 + 64 + 98 is 490. */
  lemma Example()
    ensures Calculate(MathProblem([123, 45, 6], Times)) == 33210
    ensures Calculate(MathProblem([328, 64, 98], Plus)) == 490
  {
  }
}
