/**
 * Small facts of non-linear integer arithmetic (products and Euclidean
 * division) that the solver does not find on its own; the grid index
 * arithmetic and several puzzle kernels rely on them.
 */
module Arith {

  lemma MulNonneg(a: int, b: int)
    requires a >= 0 && b >= 0
    ensures a * b >= 0
  {
  }

  lemma MulMono(a: int, b: int, c: int)
    requires a <= b && c >= 0
    ensures a * c <= b * c
  {
    MulNonneg(b - a, c);
    assert (b - a) * c == b * c - a * c;
  }

  lemma PosFactor(a: int, w: int)
    requires w > 0 && a * w > 0
    ensures a > 0
  {
  }

  /** Cell x of row y < rows of a w-wide row-major buffer lies inside the first rows * w cells. */
  lemma RowBound(y: int, rows: int, w: int, x: int)
    requires 0 <= y < rows && 0 <= x < w
    ensures 0 <= y * w + x < rows * w
  {
    MulNonneg(y, w);
    MulMono(y + 1, rows, w);
    assert (y + 1) * w == y * w + w;
  }

  /** Euclidean division is determined by quotient and remainder. */
  lemma DivModUnique(n: int, w: int, q: int, r: int)
    requires w > 0 && 0 <= r < w && n == q * w + r
    ensures n / w == q && n % w == r
  {
    var q', r' := n / w, n % w;
    assert q' * w + r' == q * w + r;
    assert (q' - q) * w == r - r';
    if q' > q {
      MulMono(1, q' - q, w);
    } else if q' < q {
      MulMono(1, q - q', w);
    }
  }

  /** An index below w * h lies in one of the first h rows. */
  lemma QuotientBound(index: nat, w: int, h: int)
    requires w > 0 && index < h * w
    ensures index / w < h
  {
    var q, r := index / w, index % w;
    assert index == q * w + r;
    assert (h - q) * w == h * w - q * w;
    PosFactor(h - q, w);
  }
}
