/**
 * 2024 day 13 (2024/src/day13.hpp): claw machines. Button A moves the
 * claw by `a`, button B by `b`; the fewest presses that reach the prize
 * solve a 2x2 linear system, which the source solves by Cramer's rule.
 */
module Y2024Day13 {
  import opened AocLib

  datatype ClawMachine = ClawMachine(a: Pos, b: Pos, prize: Pos)

  /** The determinant of the matrix with columns p and q. */
  function Det(p: Pos, q: Pos): int
  {
    p.x * q.y - q.x * p.y
  }

  /** The claw position after `i` presses of A and `j` presses of B. */
  function Reach(m: ClawMachine, i: int, j: int): Pos
  {
    Pos(i * m.a.x + j * m.b.x, i * m.a.y + j * m.b.y)
  }

  /**
   * `min_presses`: when both Cramer numerators divide by the determinant,
   * the quotients; otherwise (-1, -1). A zero determinant would divide by
   * zero, so the buttons must not be parallel. Divisibility and exact
   * quotients do not depend on how the division rounds.
   */
  function MinPresses(m: ClawMachine): (int, int)
    requires Det(m.a, m.b) != 0
  {
    var denom := Det(m.a, m.b);
    var aNumer := Det(m.prize, m.b);
    var bNumer := Det(m.a, m.prize);
    if aNumer % denom == 0 && bNumer % denom == 0 then (aNumer / denom, bNumer / denom) else (-1, -1)
  }

  function Abs(x: int): nat
  {
    if x >= 0 then x else -x
  }

  lemma AbsProductAtLeast(k: int, d: int)
    requires k != 0
    ensures Abs(d * k) >= Abs(d)
  {
    var ad, ak := Abs(d), Abs(k);
    assert Abs(d * k) == ad * ak by {
      if d >= 0 && k < 0 {
        assert d * k == -(d * -k);
      } else if d < 0 && k >= 0 {
        assert d * k == -(-d * k);
      } else if d < 0 {
        assert d * k == -d * -k;
      }
    }
    assert ad * ak - ad == ad * (ak - 1) >= 0;
  }

  lemma MulDivExact(q: int, d: int)
    requires d != 0
    ensures (q * d) % d == 0 && (q * d) / d == q
  {
    var t := q * d;
    var q', r' := t / d, t % d;
    assert t == d * q' + r' && 0 <= r' < Abs(d);
    assert d * (q - q') == r';
    if q - q' != 0 {
      AbsProductAtLeast(q - q', d);
    }
  }

  lemma MulCancel(d: int, x: int, y: int)
    requires d != 0 && d * x == d * y
    ensures x == y
  {
    assert d * (x - y) == 0;
  }

  /** The Cramer numerators of a reachable prize are the presses times the determinant. */
  lemma NumeratorsOfReach(m: ClawMachine, i: int, j: int)
    requires m.prize == Reach(m, i, j)
    ensures Det(m.prize, m.b) == i * Det(m.a, m.b)
    ensures Det(m.a, m.prize) == j * Det(m.a, m.b)
  {
    var a, b := m.a, m.b;
    calc {
      Det(m.prize, b);
      (i * a.x + j * b.x) * b.y - b.x * (i * a.y + j * b.y);
      i * (a.x * b.y) + j * (b.x * b.y) - i * (b.x * a.y) - j * (b.x * b.y);
      i * Det(a, b);
    }
    calc {
      Det(a, m.prize);
      a.x * (i * a.y + j * b.y) - (i * a.x + j * b.x) * a.y;
      i * (a.x * a.y) + j * (a.x * b.y) - i * (a.x * a.y) - j * (b.x * a.y);
      j * Det(a, b);
    }
  }

  /** Whatever presses reach the prize are exactly what `min_presses` returns. */
  lemma MinPressesFindsSolution(m: ClawMachine, i: int, j: int)
    requires Det(m.a, m.b) != 0 && m.prize == Reach(m, i, j)
    ensures MinPresses(m) == (i, j)
  {
    NumeratorsOfReach(m, i, j);
    MulDivExact(i, Det(m.a, m.b));
    MulDivExact(j, Det(m.a, m.b));
  }

  /** d(ix + jy) = (di)x + (dj)y. */
  lemma Distribute(d: int, i: int, x: int, j: int, y: int)
    ensures d * (i * x + j * y) == (d * i) * x + (d * j) * y
  {
  }

  /** (uv - wz)t = u(vt) - z(wt). */
  lemma Expand(u: int, v: int, w: int, z: int, t: int)
    ensures (u * v - w * z) * t == u * (v * t) - z * (w * t)
  {
  }

  /** Cramer's rule read backwards, first row: quotients of the numerators solve the x equation. */
  lemma CramerFirstRow(a1: int, a2: int, b1: int, b2: int, p1: int, p2: int, i: int, j: int)
    requires a1 * b2 - b1 * a2 != 0
    requires (a1 * b2 - b1 * a2) * i == p1 * b2 - b1 * p2
    requires (a1 * b2 - b1 * a2) * j == a1 * p2 - p1 * a2
    ensures i * a1 + j * b1 == p1
  {
    var d := a1 * b2 - b1 * a2;
    Distribute(d, i, a1, j, b1);
    assert d * i == p1 * b2 - b1 * p2 && d * j == a1 * p2 - p1 * a2;
    Expand(p1, b2, b1, p2, a1);
    Expand(a1, p2, p1, a2, b1);
    Expand(a1, b2, b1, a2, p1);
    assert b2 * a1 == a1 * b2 && p2 * a1 == a1 * p2 && a2 * p1 == p1 * a2 && b2 * p1 == p1 * b2;
    MulCancel(d, i * a1 + j * b1, p1);
  }

  /** Cramer's rule read backwards, second row: the y equation. */
  lemma CramerSecondRow(a1: int, a2: int, b1: int, b2: int, p1: int, p2: int, i: int, j: int)
    requires a1 * b2 - b1 * a2 != 0
    requires (a1 * b2 - b1 * a2) * i == p1 * b2 - b1 * p2
    requires (a1 * b2 - b1 * a2) * j == a1 * p2 - p1 * a2
    ensures i * a2 + j * b2 == p2
  {
    var d := a1 * b2 - b1 * a2;
    Distribute(d, i, a2, j, b2);
    Expand(p1, b2, b1, p2, a2);
    Expand(a1, p2, p1, a2, b2);
    Expand(a1, b2, b1, a2, p2);
    MulCancel(d, i * a2 + j * b2, p2);
  }

  /** When the numerators divide, the presses returned reach the prize. */
  lemma MinPressesReachesPrize(m: ClawMachine)
    requires Det(m.a, m.b) != 0
    requires Det(m.prize, m.b) % Det(m.a, m.b) == 0 && Det(m.a, m.prize) % Det(m.a, m.b) == 0
    ensures Reach(m, MinPresses(m).0, MinPresses(m).1) == m.prize
  {
    var d := Det(m.a, m.b);
    var i, j := MinPresses(m).0, MinPresses(m).1;
    assert Det(m.prize, m.b) == d * i && Det(m.a, m.prize) == d * j;
    CramerFirstRow(m.a.x, m.a.y, m.b.x, m.b.y, m.prize.x, m.prize.y, i, j);
    CramerSecondRow(m.a.x, m.a.y, m.b.x, m.b.y, m.prize.x, m.prize.y, i, j);
  }

  /** Without a whole-number solution the answer is (-1, -1). */
  lemma MinPressesNoSolution(m: ClawMachine)
    requires Det(m.a, m.b) != 0
    requires forall i, j :: Reach(m, i, j) != m.prize
    ensures MinPresses(m) == (-1, -1)
  {
    var d := Det(m.a, m.b);
    if Det(m.prize, m.b) % d == 0 && Det(m.a, m.prize) % d == 0 {
      MinPressesReachesPrize(m);
      assert false;
    }
  }

  /** The first worked example: A (94, 34), B (22, 67), prize (8400, 5400) takes 80 A and 40 B presses. */
  lemma Example()
    ensures MinPresses(ClawMachine(Pos(94, 34), Pos(22, 67), Pos(8400, 5400))) == (80, 40)
  {
    var m := ClawMachine(Pos(94, 34), Pos(22, 67), Pos(8400, 5400));
    assert Reach(m, 80, 40) == m.prize;
    MinPressesFindsSolution(m, 80, 40);
  }
}
