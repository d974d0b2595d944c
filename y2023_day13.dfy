/**
 * 2023 day 13 (2023/src/day13.hpp): patterns of ash and rocks, their
 * transposition, and lines of reflection found by counting the
 * mismatched characters between mirrored rows.
 */
module Y2023Day13 {

  type Grid = seq<string>

  /** Every row has the same length. */
  predicate Rectangular(grid: Grid)
  {
    forall a, b :: 0 <= a < |grid| && 0 <= b < |grid| ==> |grid[a]| == |grid[b]|
  }

  // ---------------------------------------------------------------------------
  // transpose
  // ---------------------------------------------------------------------------

  /** Column `i` as `transpose` builds it from `rows`: the `i`-th character of every row long enough to have one. */
  function ColumnOf(rows: Grid, i: int): string
  {
    if rows == [] then []
    else
      var last := rows[|rows| - 1];
      ColumnOf(rows[..|rows| - 1], i) + (if 0 <= i < |last| then [last[i]] else [])
  }

  /** What `transpose` returns: no rows for no rows, otherwise one column per character of the first row. */
  function Transposed(grid: Grid): Grid
  {
    if grid == [] then [] else seq(|grid[0]|, i => ColumnOf(grid, i))
  }

  /**
   * `transpose`. Every row is pushed into columns 0 .. its length, which
   * the source indexes without a check, so no row may be longer than the
   * first.
   */
  method Transpose(grid: Grid) returns (t: Grid)
    requires forall r :: 0 <= r < |grid| ==> |grid[r]| <= |grid[0]|
    ensures t == Transposed(grid)
  {
    if |grid| == 0 {
      return [];
    }
    var width := |grid[0]|;
    t := seq(width, _ => []);
    for r := 0 to |grid|
      invariant |t| == width
      invariant forall i :: 0 <= i < width ==> t[i] == ColumnOf(grid[..r], i)
    {
      var row := grid[r];
      assert grid[..r + 1][..r] == grid[..r] && grid[..r + 1][r] == row;
      for i := 0 to |row|
        invariant |t| == width
        invariant forall k :: 0 <= k < i ==> t[k] == ColumnOf(grid[..r + 1], k)
        invariant forall k :: i <= k < width ==> t[k] == ColumnOf(grid[..r], k)
      {
        t := t[i := t[i] + [row[i]]];
      }
    }
    assert grid[..|grid|] == grid;
  }

  /** On a rectangular grid, each column has one character per row, the one at that row. */
  lemma {:induction false} ColumnOfRectangular(rows: Grid, i: nat)
    requires Rectangular(rows) && |rows| > 0 && i < |rows[0]|
    ensures |ColumnOf(rows, i)| == |rows|
    ensures forall j :: 0 <= j < |rows| ==> ColumnOf(rows, i)[j] == rows[j][i]
  {
    var init := rows[..|rows| - 1];
    if init != [] {
      ColumnOfRectangular(init, i);
    }
  }

  /** `transpose(g)[i][j] == g[j][i]` on a rectangular grid, and the empty grid maps to the empty grid. */
  lemma TransposedAt(grid: Grid)
    requires Rectangular(grid)
    ensures grid == [] ==> Transposed(grid) == []
    ensures grid != [] ==> |Transposed(grid)| == |grid[0]|
    ensures grid != [] ==> forall i :: 0 <= i < |grid[0]| ==> |Transposed(grid)[i]| == |grid|
    ensures grid != [] ==> forall i, j :: 0 <= i < |grid[0]| && 0 <= j < |grid| ==> Transposed(grid)[i][j] == grid[j][i]
  {
    if grid != [] {
      forall i | 0 <= i < |grid[0]|
        ensures |Transposed(grid)[i]| == |grid|
        ensures forall j :: 0 <= j < |grid| ==> Transposed(grid)[i][j] == grid[j][i]
      {
        ColumnOfRectangular(grid, i);
      }
    }
  }

  /** Transposing a rectangular grid with non-empty rows twice gives it back. */
  lemma TransposeTwice(grid: Grid)
    requires Rectangular(grid) && grid != [] && |grid[0]| > 0
    ensures Transposed(Transposed(grid)) == grid
  {
    var t := Transposed(grid);
    TransposedAt(grid);
    assert Rectangular(t);
    TransposedAt(t);
    var tt := Transposed(t);
    assert |tt| == |grid|;
    assert |t[0]| == |grid|;
    forall j | 0 <= j < |grid| ensures tt[j] == grid[j] {
      assert |tt[j]| == |grid[0]| == |grid[j]|;
      forall i | 0 <= i < |grid[j]| ensures tt[j][i] == grid[j][i] {
        assert tt[j][i] == t[i][j];
      }
    }
  }

  // ---------------------------------------------------------------------------
  // count_mismatches
  // ---------------------------------------------------------------------------

  /** `std::mismatch` from position `from`: the first position where the strings differ, or their length. */
  function Mismatch(s1: string, s2: string, from: nat): (i: nat)
    requires |s1| == |s2| && from <= |s1|
    ensures from <= i <= |s1|
    ensures forall k :: from <= k < i ==> s1[k] == s2[k]
    ensures i < |s1| ==> s1[i] != s2[i]
    decreases |s1| - from
  {
    if from == |s1| || s1[from] != s2[from] then from else Mismatch(s1, s2, from + 1)
  }

  /** The number of positions from `from` on where the strings differ. */
  function Diffs(s1: string, s2: string, from: nat): nat
    requires |s1| == |s2| && from <= |s1|
    decreases |s1| - from
  {
    if from == |s1| then 0 else (if s1[from] != s2[from] then 1 else 0) + Diffs(s1, s2, from + 1)
  }

  /** Equal positions add nothing to the count. */
  lemma {:induction false} DiffsSkip(s1: string, s2: string, from: nat, to: nat)
    requires |s1| == |s2| && from <= to <= |s1|
    requires forall k :: from <= k < to ==> s1[k] == s2[k]
    ensures Diffs(s1, s2, from) == Diffs(s1, s2, to)
    decreases |s1| - from
  {
    if from < to {
      DiffsSkip(s1, s2, from + 1, to);
    }
  }

  /**
   * `count_mismatches` on two rows of one grid: 0 when the first mismatch
   * is at the end, 1 when a second search from just after it finds
   * nothing, else 2. The source steps past the end of the second string
   * when it is a proper prefix of the first, so the rows have one length.
   */
  function CountMismatches(s1: string, s2: string): (r: nat)
    requires |s1| == |s2|
    ensures r == if Diffs(s1, s2, 0) < 2 then Diffs(s1, s2, 0) else 2
  {
    var first := Mismatch(s1, s2, 0);
    DiffsSkip(s1, s2, 0, first);
    if first == |s1| then 0
    else
      var second := Mismatch(s1, s2, first + 1);
      DiffsSkip(s1, s2, first + 1, second);
      if second == |s1| then 1 else 2
  }

  /** No mismatch exactly when the rows are equal. */
  lemma {:induction false} DiffsZero(s1: string, s2: string, from: nat)
    requires |s1| == |s2| && from <= |s1|
    ensures Diffs(s1, s2, from) == 0 <==> s1[from..] == s2[from..]
    decreases |s1| - from
  {
    if from < |s1| {
      DiffsZero(s1, s2, from + 1);
      assert s1[from..] == [s1[from]] + s1[from + 1..];
      assert s2[from..] == [s2[from]] + s2[from + 1..];
    }
  }

  lemma CountMismatchesZero(s1: string, s2: string)
    requires |s1| == |s2|
    ensures CountMismatches(s1, s2) == 0 <==> s1 == s2
  {
    DiffsZero(s1, s2, 0);
    assert s1[0..] == s1 && s2[0..] == s2;
  }

  // ---------------------------------------------------------------------------
  // find_reflection
  // ---------------------------------------------------------------------------

  /** The mismatches between rows `i - j - 1` and `i + j`, the `j`-th pair mirrored about the line above row `i`. */
  function PairMismatches(grid: Grid, i: nat, j: nat): nat
    requires Rectangular(grid) && j < i && i + j < |grid|
  {
    if grid[i - j - 1] == grid[i + j] then 0 else CountMismatches(grid[i - j - 1], grid[i + j])
  }

  /** The mismatches of the first `count` mirrored pairs about the line above row `i`. */
  function PairsTotal(grid: Grid, i: nat, count: nat): nat
    requires Rectangular(grid) && count <= i && i + count <= |grid|
  {
    if count == 0 then 0 else PairsTotal(grid, i, count - 1) + PairMismatches(grid, i, count - 1)
  }

  /** The number of row pairs mirrored about the line above row `i`. */
  function Pairs(grid: Grid, i: nat): nat
    requires i <= |grid|
  {
    if i <= |grid| - i then i else |grid| - i
  }

  /** The total mismatches of the reflection about the line above row `i`. */
  function Smudges(grid: Grid, i: nat): nat
    requires Rectangular(grid) && i <= |grid|
  {
    PairsTotal(grid, i, Pairs(grid, i))
  }

  /** Adding further pairs never lowers the total. */
  lemma {:induction false} PairsTotalMonotone(grid: Grid, i: nat, a: nat, b: nat)
    requires Rectangular(grid) && a <= b <= i && i + b <= |grid|
    ensures PairsTotal(grid, i, a) <= PairsTotal(grid, i, b)
    decreases b - a
  {
    if a < b {
      PairsTotalMonotone(grid, i, a, b - 1);
    }
  }

  /** The mismatch count `find_reflection` reaches for the line above row `i`, with the early exit once it passes the target. */
  method ScoreLine(grid: Grid, i: nat, target: int) returns (mismatches: int)
    requires Rectangular(grid) && 1 <= i < |grid|
    ensures mismatches == target <==> Smudges(grid, i) == target
  {
    mismatches := 0;
    var j := 0;
    while i - j > 0 && i + j < |grid|
      invariant 0 <= j <= Pairs(grid, i)
      invariant mismatches == PairsTotal(grid, i, j)
      decreases i - j
    {
      if grid[i - j - 1] != grid[i + j] {
        mismatches := mismatches + CountMismatches(grid[i - j - 1], grid[i + j]);
        if mismatches > target {
          PairsTotalMonotone(grid, i, j + 1, Pairs(grid, i));
          return;
        }
      }
      j := j + 1;
    }
  }

  /**
   * `find_reflection`: the first line, above row 1 .. |grid| - 1, whose
   * mirrored rows differ in exactly `target` characters; 0 when none does.
   */
  method FindReflection(grid: Grid, target: int) returns (line: nat)
    requires Rectangular(grid)
    ensures line == 0 ==> forall i :: 1 <= i < |grid| ==> Smudges(grid, i) != target
    ensures line != 0 ==> line < |grid| && Smudges(grid, line) == target
    ensures forall i :: 1 <= i < line ==> Smudges(grid, i) != target
  {
    if |grid| == 0 {
      return 0;
    }
    var i := 1;
    while i < |grid|
      invariant 1 <= i <= |grid|
      invariant forall k :: 1 <= k < i ==> Smudges(grid, k) != target
    {
      var mismatches := ScoreLine(grid, i, target);
      if mismatches == target {
        return i;
      }
      i := i + 1;
    }
    return 0;
  }

  /** The second example pattern reflects about the line above row 4; with one smudge, about the line above row 1. */
  lemma ExampleHorizontal()
    ensures var g := ["#...##..#", "#....#..#", "..##..###", "#####.##.", "#####.##.", "..##..###", "#....#..#"];
      Rectangular(g) && Smudges(g, 4) == 0 && Smudges(g, 1) == 1
  {
    var g := ["#...##..#", "#....#..#", "..##..###", "#####.##.", "#####.##.", "..##..###", "#....#..#"];
    assert PairsTotal(g, 4, 3) == 0;
    var s1, s2 := g[0], g[1];
    assert Mismatch(s1, s2, 5) == 9;
    assert Mismatch(s1, s2, 0) == 4;
    assert CountMismatches(s1, s2) == 1;
  }
}
