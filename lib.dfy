/**
 * Direction and grid-vector arithmetic shared by every puzzle: absolute and
 * relative directions with the turn algebra on them, the Delta and Pos
 * integer vectors, and the closed-interval helpers intersect_ranges and
 * ranges_overlap.
 */
module AocLib {

  datatype Option<T> = None | Some(value: T)

  /** The four compass directions by their underlying value, clockwise
    * from north = 0. */
  newtype AbsDirection = i: int | 0 <= i < 4
  const North: AbsDirection := 0
  const East: AbsDirection := 1
  const South: AbsDirection := 2
  const West: AbsDirection := 3

  /** Turns relative to a heading, also clockwise from forward = 0. */
  newtype RelDirection = i: int | 0 <= i < 4
  const Forward: RelDirection := 0
  const Right: RelDirection := 1
  const Backward: RelDirection := 2
  const Left: RelDirection := 3

  /** turn: add the turn to the heading, modulo the four directions. */
  function Turn(dir: AbsDirection, turnDir: RelDirection): AbsDirection
  {
    ((dir as int + turnDir as int) % 4) as AbsDirection
  }

  /** opposite: turning backward. */
  function Opposite(dir: AbsDirection): AbsDirection
  {
    Turn(dir, Backward)
  }

  /** relative_to: the turn that leads from oldDir to newDir. */
  function RelativeTo(oldDir: AbsDirection, newDir: AbsDirection): RelDirection
  {
    ((newDir as int - oldDir as int + 4) % 4) as RelDirection
  }

  /** Reduction modulo four of a sum of two values below four. */
  lemma Mod4(v: int)
    requires 0 <= v < 8
    ensures v % 4 == if v < 4 then v else v - 4
  {
  }

  /** Turning forward keeps the heading; every other turn changes it. */
  lemma TurnForward(dir: AbsDirection, r: RelDirection)
    ensures Turn(dir, r) == dir <==> r == Forward
  {
    Mod4(dir as int + r as int);
  }

  /** Opposite is an involution and never a fixed point. */
  lemma OppositeInvolution(dir: AbsDirection)
    ensures Opposite(Opposite(dir)) == dir
    ensures Opposite(dir) != dir
  {
    Mod4(dir as int + 2);
    Mod4(Opposite(dir) as int + 2);
  }

  /** relative_to inverts turn: the turn that leads to turn(dir, r) is r. */
  lemma RelativeToInvertsTurn(dir: AbsDirection, r: RelDirection)
    ensures RelativeTo(dir, Turn(dir, r)) == r
  {
    Mod4(dir as int + r as int);
    Mod4(Turn(dir, r) as int - dir as int + 4);
  }

  /** turn inverts relative_to: turning by relative_to(dir, target) reaches target. */
  lemma TurnInvertsRelativeTo(dir: AbsDirection, target: AbsDirection)
    ensures Turn(dir, RelativeTo(dir, target)) == target
  {
    Mod4(target as int - dir as int + 4);
    Mod4(dir as int + RelativeTo(dir, target) as int);
  }

  /** Two turns compose by adding their offsets. */
  lemma TurnCompose(dir: AbsDirection, a: RelDirection, b: RelDirection)
    ensures Turn(Turn(dir, a), b) == Turn(dir, ((a as int + b as int) % 4) as RelDirection)
  {
    Mod4(dir as int + a as int);
    Mod4(a as int + b as int);
    Mod4(Turn(dir, a) as int + b as int);
    Mod4(dir as int + (a as int + b as int) % 4);
  }

  /** The direction parser: N/U, E/R, S/D, W/L; any other character fails. */
  function ParseDirection(ch: char): (r: Option<AbsDirection>)
    ensures r.Some? <==> ch in "NUERSDWL"
    ensures r == Some(North) <==> ch == 'N' || ch == 'U'
    ensures r == Some(East) <==> ch == 'E' || ch == 'R'
    ensures r == Some(South) <==> ch == 'S' || ch == 'D'
    ensures r == Some(West) <==> ch == 'W' || ch == 'L'
  {
    match ch
    case 'N' => Some(North)
    case 'U' => Some(North)
    case 'E' => Some(East)
    case 'R' => Some(East)
    case 'S' => Some(South)
    case 'D' => Some(South)
    case 'W' => Some(West)
    case 'L' => Some(West)
    case _ => None
  }

  /** The printer writes the compass letter. */
  function DirectionChar(dir: AbsDirection): char
  {
    if dir == North then 'N' else if dir == East then 'E' else if dir == South then 'S' else 'W'
  }

  /** Printing then parsing a direction gives it back. */
  lemma ParsePrintRoundTrip(dir: AbsDirection)
    ensures ParseDirection(DirectionChar(dir)) == Some(dir)
  {
  }

  // ---------------------------------------------------------------- Delta

  datatype Delta = Delta(dx: int, dy: int)

  function Abs(v: int): nat
  {
    if v < 0 then -v else v
  }

  /**
   * The unit step for a direction: north is dy = +1, south dy = -1, east
   * dx = +1, west dx = -1; invertVertical negates dy (screen coordinates).
   */
  function DeltaOf(dir: AbsDirection, invertVertical: bool): (d: Delta)
    ensures dir == North ==> d == Delta(0, if invertVertical then -1 else 1)
    ensures dir == South ==> d == Delta(0, if invertVertical then 1 else -1)
    ensures dir == East ==> d == Delta(1, 0)
    ensures dir == West ==> d == Delta(-1, 0)
  {
    var base :=
      if dir == North then Delta(0, 1)
      else if dir == South then Delta(0, -1)
      else if dir == East then Delta(1, 0)
      else Delta(-1, 0);
    if invertVertical then Delta(base.dx, base.dy * -1) else base
  }

  function ChebyshevDistance(d: Delta): nat
  {
    if Abs(d.dx) >= Abs(d.dy) then Abs(d.dx) else Abs(d.dy)
  }

  function ManhattanDistance(d: Delta): nat
  {
    Abs(d.dx) + Abs(d.dy)
  }

  /** A direction's delta is a unit vector, and opposite directions give opposite deltas. */
  lemma DeltaOfUnit(dir: AbsDirection, invertVertical: bool)
    ensures ManhattanDistance(DeltaOf(dir, invertVertical)) == 1
    ensures ChebyshevDistance(DeltaOf(dir, invertVertical)) == 1
    ensures DeltaOf(Opposite(dir), invertVertical) == Negate(DeltaOf(dir, invertVertical))
  {
  }

  /** Chebyshev distance never exceeds Manhattan distance, which is at most twice it. */
  lemma DistanceBounds(d: Delta)
    ensures ChebyshevDistance(d) <= ManhattanDistance(d) <= 2 * ChebyshevDistance(d)
    ensures ManhattanDistance(d) == 0 <==> d == Delta(0, 0)
  {
  }

  function AddDelta(a: Delta, b: Delta): Delta
  {
    Delta(a.dx + b.dx, a.dy + b.dy)
  }

  function SubDelta(a: Delta, b: Delta): Delta
  {
    Delta(a.dx - b.dx, a.dy - b.dy)
  }

  function ScaleDelta(a: Delta, k: int): Delta
  {
    Delta(a.dx * k, a.dy * k)
  }

  function Negate(a: Delta): Delta
  {
    Delta(a.dx * -1, a.dy * -1)
  }

  function Sign(v: int): int
  {
    if v < 0 then -1 else 1
  }

  /**
   * C++ integer division, which truncates toward zero: the magnitude is the
   * quotient of the magnitudes and the sign is the product of the signs.
   */
  function TruncDiv(a: int, b: int): int
    requires b != 0
  {
    Sign(a) * Sign(b) * (Abs(a) / Abs(b))
  }

  function DivDelta(a: Delta, k: int): Delta
    requires k != 0
  {
    Delta(TruncDiv(a.dx, k), TruncDiv(a.dy, k))
  }

  /** Truncating division rounds toward zero, and is symmetric under negation (Euclidean division is not). */
  lemma TruncDivProperties(a: int, b: int)
    requires b != 0
    ensures Abs(TruncDiv(a, b)) * Abs(b) <= Abs(a) < (Abs(TruncDiv(a, b)) + 1) * Abs(b)
    ensures TruncDiv(-a, b) == -TruncDiv(a, b)
    ensures TruncDiv(a, -b) == -TruncDiv(a, b)
  {
    var q := Abs(a) / Abs(b);
    assert Abs(TruncDiv(a, b)) == q;
  }

  lemma AbsMul(v: int, k: int)
    ensures Abs(v * k) == Abs(v) * Abs(k)
  {
    if v < 0 && k < 0 {
      assert v * k == (-v) * (-k);
    } else if v < 0 {
      assert v * k == -((-v) * k);
    } else if k < 0 {
      assert v * k == -(v * (-k));
    }
  }

  /** Scaling then dividing by the same non-zero factor is the identity. */
  lemma ScaleDivRoundTrip(a: Delta, k: int)
    requires k != 0
    ensures DivDelta(ScaleDelta(a, k), k) == a
  {
    TruncExact(a.dx, k);
    TruncExact(a.dy, k);
  }

  lemma DivMulCancel(x: nat, y: nat)
    requires y > 0
    ensures (x * y) / y == x
  {
    var q := (x * y) / y;
    var r := (x * y) % y;
    assert q * y + r == x * y;
    assert (x - q) * y == x * y - q * y;
    if q < x {
      MulAtLeast(x - q, y);
    } else if q > x {
      MulAtLeast(q - x, y);
    }
  }

  lemma MulAtLeast(a: int, y: nat)
    requires a >= 1
    ensures a * y >= y
  {
  }

  lemma TruncExact(v: int, k: int)
    requires k != 0
    ensures TruncDiv(v * k, k) == v
  {
    AbsMul(v, k);
    DivMulCancel(Abs(v), Abs(k));
    assert Abs(v * k) / Abs(k) == Abs(v);
    if v == 0 {
    } else if v < 0 && k < 0 {
      assert v * k > 0;
    } else if v < 0 {
      assert v * k < 0;
    } else if k < 0 {
      assert v * k < 0;
    } else {
      assert v * k > 0;
    }
  }

  // ------------------------------------------------------------------ Pos

  datatype Pos = Pos(x: int, y: int)

  function PosAdd(p: Pos, d: Delta): Pos
  {
    Pos(p.x + d.dx, p.y + d.dy)
  }

  function PosSub(p: Pos, d: Delta): Pos
  {
    Pos(p.x - d.dx, p.y - d.dy)
  }

  function PosScale(p: Pos, k: int): Pos
  {
    Pos(p.x * k, p.y * k)
  }

  function PosDiv(p: Pos, k: int): Pos
    requires k != 0
  {
    Pos(TruncDiv(p.x, k), TruncDiv(p.y, k))
  }

  /** Difference of two positions. */
  function PosDiff(p: Pos, q: Pos): Delta
  {
    Delta(p.x - q.x, p.y - q.y)
  }

  /** p + (q - p) == q, and adding then subtracting a delta is the identity. */
  lemma PosArithmetic(p: Pos, q: Pos, d: Delta, e: Delta)
    ensures PosAdd(p, PosDiff(q, p)) == q
    ensures PosSub(PosAdd(p, d), d) == p
    ensures PosDiff(PosAdd(p, d), p) == d
    ensures PosAdd(PosAdd(p, d), e) == PosAdd(p, AddDelta(d, e))
    ensures PosSub(p, d) == PosAdd(p, Negate(d))
  {
  }

  // -------------------------------------------------------- closed ranges

  function Max(a: int, b: int): int
  {
    if a >= b then a else b
  }

  function Min(a: int, b: int): int
  {
    if a <= b then a else b
  }

  predicate InRange(r: (int, int), v: int)
  {
    r.0 <= v <= r.1
  }

  /**
   * intersect_ranges on closed ranges [lo, hi]: [max lo, min hi], with hi
   * clamped to lo - 1 when the ranges are disjoint so the result reads as
   * empty.
   */
  function IntersectRanges(r1: (int, int), r2: (int, int)): (r: (int, int))
    ensures r.0 == Max(r1.0, r2.0)
    ensures r.1 >= r.0 - 1
    ensures forall v :: InRange(r, v) <==> InRange(r1, v) && InRange(r2, v)
  {
    var lo := Max(r1.0, r2.0);
    var hi := Min(r1.1, r2.1);
    (lo, Max(hi, lo - 1))
  }

  /** ranges_overlap: the closed ranges share a point. */
  function RangesOverlap(r1: (int, int), r2: (int, int)): (b: bool)
    ensures b <==> exists v :: InRange(r1, v) && InRange(r2, v)
  {
    var lo := Max(r1.0, r2.0);
    var hi := Min(r1.1, r2.1);
    assert lo <= hi ==> InRange(r1, lo) && InRange(r2, lo);
    lo <= hi
  }

  /** Two ranges overlap exactly when their intersection is not empty. */
  lemma OverlapIffNonEmpty(r1: (int, int), r2: (int, int))
    ensures RangesOverlap(r1, r2) <==> IntersectRanges(r1, r2).0 <= IntersectRanges(r1, r2).1
  {
    var r := IntersectRanges(r1, r2);
    if r.0 <= r.1 {
      assert InRange(r, r.0);
    }
  }
}
