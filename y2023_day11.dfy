/**
 * 2023 day 11 (2023/src/day11.hpp): cosmic expansion. Every row and every
 * column without a galaxy grows to `amount` rows or columns, and the
 * galaxies move accordingly.
 */
module Y2023Day11 {
  import opened AocLib

  /**
   * Where coordinate `c` ends up: coordinate 0 stays, and each later
   * coordinate adds 1 when a galaxy occupies it and `amount` when none does.
   */
  function Expanded(occupied: set<int>, amount: int, c: nat): int
  {
    if c == 0 then 0 else Expanded(occupied, amount, c - 1) + (if c in occupied then 1 else amount)
  }

  /** The number of unoccupied coordinates among 1 .. c. */
  function EmptyCount(occupied: set<int>, c: nat): nat
  {
    if c == 0 then 0 else EmptyCount(occupied, c - 1) + (if c in occupied then 0 else 1)
  }

  /** A coordinate moves by `amount - 1` for every empty row or column before it (coordinate 0 excepted). */
  lemma {:induction false} ExpandedClosedForm(occupied: set<int>, amount: int, c: nat)
    ensures Expanded(occupied, amount, c) == c + (amount - 1) * EmptyCount(occupied, c)
  {
    if c > 0 {
      ExpandedClosedForm(occupied, amount, c - 1);
      var e := EmptyCount(occupied, c - 1);
      if c in occupied {
        assert EmptyCount(occupied, c) == e;
      } else {
        assert EmptyCount(occupied, c) == e + 1;
        assert (amount - 1) * (e + 1) == (amount - 1) * e + (amount - 1);
      }
    }
  }

  /** With `amount >= 1`, expansion keeps coordinates in strict order. */
  lemma {:induction false} ExpandedMonotone(occupied: set<int>, amount: int, a: nat, b: nat)
    requires amount >= 1 && a < b
    ensures Expanded(occupied, amount, a) < Expanded(occupied, amount, b)
    decreases b - a
  {
    if a + 1 < b {
      ExpandedMonotone(occupied, amount, a, b - 1);
    }
  }

  /** The columns (x) of the galaxies. */
  function Columns(galaxies: seq<Pos>): set<int>
  {
    set g | g in galaxies :: g.x
  }

  /** The rows (y) of the galaxies. */
  function Rows(galaxies: seq<Pos>): set<int>
  {
    set g | g in galaxies :: g.y
  }

  /** The expansion of one coordinate for every value 0 .. max, as a lookup table. */
  method ExpansionTable(occupied: set<int>, amount: int, max: nat) returns (table: seq<int>)
    ensures |table| == max + 1
    ensures forall c :: 0 <= c <= max ==> table[c] == Expanded(occupied, amount, c)
  {
    table := [0];
    for c := 1 to max + 1
      invariant |table| == c
      invariant forall k :: 0 <= k < c ==> table[k] == Expanded(occupied, amount, k)
    {
      var d := if c in occupied then 1 else amount;
      assert Expanded(occupied, amount, c) == table[c - 1] + d;
      table := table + [table[c - 1] + d];
    }
  }

  lemma ColumnsRowsSnoc(s: seq<Pos>, g: Pos)
    ensures Columns(s + [g]) == Columns(s) + {g.x}
    ensures Rows(s + [g]) == Rows(s) + {g.y}
  {
    assert forall h :: h in s + [g] <==> h in s || h == g;
  }

  /** The first loop of `expand`: the occupied columns and rows, and the largest x and y. */
  method Occupancy(galaxies: seq<Pos>) returns (columns: set<int>, rows: set<int>, maxX: nat, maxY: nat)
    requires forall i :: 0 <= i < |galaxies| ==> galaxies[i].x >= 0 && galaxies[i].y >= 0
    ensures columns == Columns(galaxies) && rows == Rows(galaxies)
    ensures forall i :: 0 <= i < |galaxies| ==> galaxies[i].x <= maxX && galaxies[i].y <= maxY
  {
    columns, rows := {}, {};
    maxX, maxY := 0, 0;
    for i := 0 to |galaxies|
      invariant columns == Columns(galaxies[..i]) && rows == Rows(galaxies[..i])
      invariant forall k :: 0 <= k < i ==> galaxies[k].x <= maxX && galaxies[k].y <= maxY
    {
      var g := galaxies[i];
      assert galaxies[..i + 1] == galaxies[..i] + [g];
      ColumnsRowsSnoc(galaxies[..i], g);
      columns := columns + {g.x};
      rows := rows + {g.y};
      if g.x > maxX {
        maxX := g.x;
      }
      if g.y > maxY {
        maxY := g.y;
      }
    }
    assert galaxies[..|galaxies|] == galaxies;
  }

  /** Where a galaxy moves to, given the occupied columns and rows. */
  function MovedTo(columns: set<int>, rows: set<int>, amount: int, g: Pos): Pos
    requires g.x >= 0 && g.y >= 0
  {
    Pos(Expanded(columns, amount, g.x), Expanded(rows, amount, g.y))
  }

  /**
   * `expand`: the galaxies in the same order, each moved to its expanded
   * column and row. Positions index the lookup tables, so they are never
   * negative.
   */
  method Expand(galaxies: seq<Pos>, amount: int) returns (moved: seq<Pos>)
    requires forall i :: 0 <= i < |galaxies| ==> galaxies[i].x >= 0 && galaxies[i].y >= 0
    ensures |moved| == |galaxies|
    ensures forall i :: 0 <= i < |galaxies| ==>
      moved[i] == MovedTo(Columns(galaxies), Rows(galaxies), amount, galaxies[i])
  {
    var columns, rows, maxX, maxY := Occupancy(galaxies);
    var expandedX := ExpansionTable(columns, amount, maxX);
    var expandedY := ExpansionTable(rows, amount, maxY);
    moved := [];
    for i := 0 to |galaxies|
      invariant |moved| == i
      invariant forall k :: 0 <= k < i ==>
        moved[k] == MovedTo(columns, rows, amount, galaxies[k])
    {
      var g := galaxies[i];
      assert g.x <= maxX && g.y <= maxY;
      var p := Pos(expandedX[g.x], expandedY[g.y]);
      assert p == MovedTo(columns, rows, amount, g);
      moved := moved + [p];
    }
  }

  /** With `amount >= 1`, two galaxies keep their left-to-right order after expansion. */
  lemma ExpandKeepsOrder(galaxies: seq<Pos>, amount: int, i: nat, j: nat)
    requires amount >= 1 && i < |galaxies| && j < |galaxies|
    requires galaxies[i].x >= 0 && galaxies[j].x >= 0 && galaxies[i].x < galaxies[j].x
    ensures Expanded(Columns(galaxies), amount, galaxies[i].x) < Expanded(Columns(galaxies), amount, galaxies[j].x)
  {
    ExpandedMonotone(Columns(galaxies), amount, galaxies[i].x, galaxies[j].x);
  }

  /** The worked example's columns 2, 5 and 8 are empty: with amount 2, column 9 moves to 12. */
  lemma ExampleColumn()
    ensures Expanded({0, 1, 3, 4, 6, 7, 9}, 2, 9) == 12
  {
    var occ: set<int> := {0, 1, 3, 4, 6, 7, 9};
    ExpandedClosedForm(occ, 2, 9);
    assert EmptyCount(occ, 9) == 3 by {
      assert 2 !in occ && 5 !in occ && 8 !in occ;
      assert 1 in occ && 3 in occ && 4 in occ && 6 in occ && 7 in occ && 9 in occ;
    }
  }
}
