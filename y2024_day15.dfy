/**
 * 2024 day 15 (2024/src/day15.hpp): a robot pushes boxes around a
 * warehouse. A move either is blocked (a wall or the edge stops the chain of
 * boxes in front of the robot) or shifts the robot and every box in that
 * chain one step. In the widened warehouse a box is two cells `[]`, and a
 * vertical push of either half pushes both.
 *
 * The floor is an `array2<char>` indexed `[y, x]`; y grows downwards, so a
 * step north is dy = -1 (`Delta{dir, true}`).
 */
module Y2024Day15 {
  import opened AocLib

  /** The floor as rows of tiles, indexed [y][x]. */
  type Board = seq<seq<char>>

  /** Where the robot is when the floor has no `@`. */
  const NoRobot := Pos(-1, -1)

  predicate IsBox(t: char)
  {
    t == 'O' || t == '[' || t == ']'
  }

  predicate InBoard(g: Board, p: Pos)
  {
    0 <= p.y < |g| && 0 <= p.x < |g[p.y]|
  }

  function At(g: Board, p: Pos): char
    requires InBoard(g, p)
  {
    g[p.y][p.x]
  }

  /** The board with cell p overwritten. */
  function Put(g: Board, p: Pos, v: char): (r: Board)
    requires InBoard(g, p)
    ensures |r| == |g| && forall y :: 0 <= y < |g| ==> |r[y]| == |g[y]|
  {
    g[p.y := g[p.y][p.x := v]]
  }

  /** std::swap of two cells. */
  function SwapBoard(g: Board, p: Pos, q: Pos): (r: Board)
    requires InBoard(g, p) && InBoard(g, q)
    ensures |r| == |g| && forall y :: 0 <= y < |g| ==> |r[y]| == |g[y]|
  {
    Put(Put(g, p, At(g, q)), q, At(g, p))
  }

  lemma SwapAt(g: Board, p: Pos, q: Pos, c: Pos)
    requires InBoard(g, p) && InBoard(g, q) && InBoard(g, c)
    ensures At(SwapBoard(g, p, q), c) == if c == q then At(g, p) else if c == p then At(g, q) else At(g, c)
  {
  }

  // ---------------------------------------------------------------------------
  // The tiles on the floor, as a multiset
  // ---------------------------------------------------------------------------

  function Tiles(g: Board): multiset<char>
  {
    if g == [] then multiset{} else Tiles(g[..|g| - 1]) + multiset(g[|g| - 1])
  }

  lemma RowPut(row: seq<char>, x: nat, v: char)
    requires x < |row|
    ensures multiset(row[x := v]) + multiset{row[x]} == multiset(row) + multiset{v}
  {
    assert row == row[..x] + [row[x]] + row[x + 1..];
    assert row[x := v] == row[..x] + [v] + row[x + 1..];
  }

  lemma UnionShuffle(a: multiset<char>, b: multiset<char>, ra: multiset<char>, ga: multiset<char>,
                     x: multiset<char>, y: multiset<char>)
    requires (a == b && ra + x == ga + y) || (ra == ga && a + x == b + y)
    ensures a + ra + x == b + ga + y
  {
    forall c
      ensures (a + ra + x)[c] == (b + ga + y)[c]
    {
      assert (ra + x)[c] == (ga + y)[c] || (a + x)[c] == (b + y)[c];
    }
  }

  /** Overwriting one cell trades its old tile for the new one. */
  lemma {:induction false} TilesPut(g: Board, p: Pos, v: char)
    requires InBoard(g, p)
    ensures Tiles(Put(g, p, v)) + multiset{At(g, p)} == Tiles(g) + multiset{v}
  {
    var n := |g| - 1;
    var r := Put(g, p, v);
    if p.y == n {
      assert r[..n] == g[..n];
      RowPut(g[n], p.x, v);
    } else {
      assert r[..n] == Put(g[..n], p, v);
      TilesPut(g[..n], p, v);
    }
    UnionShuffle(Tiles(r[..n]), Tiles(g[..n]), multiset(r[n]), multiset(g[n]), multiset{At(g, p)}, multiset{v});
  }

  /** A swap moves tiles around but keeps every one of them. */
  lemma TilesSwap(g: Board, p: Pos, q: Pos)
    requires InBoard(g, p) && InBoard(g, q)
    ensures Tiles(SwapBoard(g, p, q)) == Tiles(g)
  {
    var g1 := Put(g, p, At(g, q));
    TilesPut(g, p, At(g, q));
    TilesPut(g1, q, At(g, p));
    assert At(g1, q) == At(g, q);
    var t2 := Tiles(SwapBoard(g, p, q));
    assert t2 + multiset{At(g, q)} == Tiles(g) + multiset{At(g, q)};
    forall c
      ensures t2[c] == Tiles(g)[c]
    {
      assert (t2 + multiset{At(g, q)})[c] == (Tiles(g) + multiset{At(g, q)})[c];
    }
  }

  // ---------------------------------------------------------------------------
  // Shifting a set of cells one step
  // ---------------------------------------------------------------------------

  /**
   * Cell c after every cell listed in s moved one step along d: it receives
   * the tile from c - d when that cell moved, it is left empty when it moved
   * itself and nothing moved into it, and it is unchanged otherwise.
   */
  function ShiftCell(g: Board, s: seq<Pos>, d: Delta, c: Pos): char
    requires InBoard(g, c)
  {
    var from := PosSub(c, d);
    if from in s && InBoard(g, from) then At(g, from)
    else if c in s then '.'
    else At(g, c)
  }

  function Shifted(g: Board, s: seq<Pos>, d: Delta): (r: Board)
    ensures |r| == |g| && forall y :: 0 <= y < |g| ==> |r[y]| == |g[y]|
  {
    seq(|g|, y requires 0 <= y < |g| =>
      seq(|g[y]|, x requires 0 <= y < |g| && 0 <= x < |g[y]| => ShiftCell(g, s, d, Pos(x, y))))
  }

  predicate Unit(d: Delta)
  {
    (d.dx == 0 && (d.dy == 1 || d.dy == -1)) || (d.dy == 0 && (d.dx == 1 || d.dx == -1))
  }

  /**
   * Entry k of s can be moved when its turn comes: its cell and target are on
   * the board, the target is empty or listed earlier, and if an earlier entry
   * moves into its cell, its cell was listed before that entry.
   */
  ghost predicate StepOk(g: Board, s: seq<Pos>, d: Delta, k: int)
    requires 0 <= k < |s|
  {
    InBoard(g, s[k]) && InBoard(g, PosAdd(s[k], d))
    && (At(g, PosAdd(s[k], d)) == '.' || PosAdd(s[k], d) in s[..k])
    && (forall i :: 0 <= i < k && PosAdd(s[i], d) == s[k] ==> s[k] in s[..i])
  }

  /** The cells in s can be moved one at a time, in order, each into an empty cell. */
  ghost predicate Schedulable(g: Board, s: seq<Pos>, d: Delta)
  {
    Unit(d) && forall k :: 0 <= k < |s| ==> StepOk(g, s, d, k)
  }

  /**
   * When entry k of a schedule comes up and its cell has not moved yet,
   * nothing has moved into that cell, it still holds its original tile, and
   * its target is empty.
   */
  lemma StepFacts(g: Board, s: seq<Pos>, d: Delta, k: nat)
    requires Unit(d) && k < |s| && StepOk(g, s, d, k) && s[k] !in s[..k]
    ensures InBoard(g, s[k]) && InBoard(g, PosAdd(s[k], d))
    ensures PosSub(s[k], d) !in s[..k]
    ensures ShiftCell(g, s[..k], d, s[k]) == At(g, s[k])
    ensures ShiftCell(g, s[..k], d, PosAdd(s[k], d)) == '.'
  {
    var q := s[k];
    var t := PosAdd(q, d);
    assert PosSub(t, d) == q;
    assert PosAdd(PosSub(q, d), d) == q;
  }

  /** One cell of the board after entry k moved, against the swap. */
  lemma StepCell(g: Board, s: seq<Pos>, d: Delta, k: nat, c: Pos)
    requires k < |s| && InBoard(g, c) && InBoard(g, s[k]) && InBoard(g, PosAdd(s[k], d))
    requires PosSub(s[k], d) !in s[..k] && s[k] !in s[..k] && PosAdd(s[k], d) != s[k]
    requires ShiftCell(g, s[..k], d, s[k]) == At(g, s[k])
    requires ShiftCell(g, s[..k], d, PosAdd(s[k], d)) == '.'
    ensures ShiftCell(g, s[..k + 1], d, c) ==
      if c == PosAdd(s[k], d) then ShiftCell(g, s[..k], d, s[k])
      else if c == s[k] then ShiftCell(g, s[..k], d, PosAdd(s[k], d))
      else ShiftCell(g, s[..k], d, c)
  {
    var q := s[k];
    assert s[..k + 1] == s[..k] + [q];
    assert PosSub(PosAdd(q, d), d) == q;
  }

  /**
   * Processing entry k of a schedule whose cell has not moved yet is a swap
   * of that cell with its target, and the target is empty at that moment.
   */
  lemma ShiftStep(g: Board, s: seq<Pos>, d: Delta, k: nat)
    requires Unit(d) && k < |s| && StepOk(g, s, d, k) && s[k] !in s[..k]
    ensures InBoard(Shifted(g, s[..k], d), s[k]) && InBoard(Shifted(g, s[..k], d), PosAdd(s[k], d))
    ensures At(Shifted(g, s[..k], d), PosAdd(s[k], d)) == '.'
    ensures Shifted(g, s[..k + 1], d) == SwapBoard(Shifted(g, s[..k], d), s[k], PosAdd(s[k], d))
  {
    var q := s[k];
    var t := PosAdd(q, d);
    var cur := Shifted(g, s[..k], d);
    var next := Shifted(g, s[..k + 1], d);
    StepFacts(g, s, d, k);
    forall y | 0 <= y < |g|
      ensures next[y] == SwapBoard(cur, q, t)[y]
    {
      forall x | 0 <= x < |g[y]|
        ensures next[y][x] == SwapBoard(cur, q, t)[y][x]
      {
        SwapAt(cur, q, t, Pos(x, y));
        StepCell(g, s, d, k, Pos(x, y));
      }
    }
  }

  /** An entry whose cell has already moved changes nothing. */
  lemma ShiftSkip(g: Board, s: seq<Pos>, d: Delta, k: nat)
    requires k < |s| && s[k] in s[..k]
    ensures Shifted(g, s[..k + 1], d) == Shifted(g, s[..k], d)
  {
    assert s[..k + 1] == s[..k] + [s[k]];
    forall y | 0 <= y < |g|
      ensures Shifted(g, s[..k + 1], d)[y] == Shifted(g, s[..k], d)[y]
    {
    }
  }

  /** Shifting no cells leaves the board as it was. */
  lemma ShiftNothing(g: Board, s: seq<Pos>, d: Delta)
    requires s == []
    ensures Shifted(g, s, d) == g
  {
    forall y | 0 <= y < |g|
      ensures Shifted(g, s, d)[y] == g[y]
    {
    }
  }

  /** The cells the entries of s move into (`already_moved`). */
  function Targets(s: seq<Pos>, d: Delta): set<Pos>
  {
    set q | q in s :: PosAdd(q, d)
  }

  /** An entry's target is already taken exactly when the same entry came earlier. */
  lemma TargetsStep(s: seq<Pos>, d: Delta, k: nat)
    requires k < |s|
    ensures (PosAdd(s[k], d) in Targets(s[..k], d)) == (s[k] in s[..k])
    ensures Targets(s[..k + 1], d) == Targets(s[..k], d) + {PosAdd(s[k], d)}
  {
    assert s[..k + 1] == s[..k] + [s[k]];
  }

  /** Carrying out a schedule, or any prefix of it, keeps every tile on the floor. */
  lemma {:induction false} ShiftTiles(g: Board, s: seq<Pos>, d: Delta, k: nat)
    requires Schedulable(g, s, d) && k <= |s|
    ensures Tiles(Shifted(g, s[..k], d)) == Tiles(g)
  {
    if k == 0 {
      ShiftNothing(g, s[..0], d);
    } else {
      var j := k - 1;
      ShiftTiles(g, s, d, j);
      StepTiles(g, s, d, j);
      assert j + 1 == k;
    }
  }

  lemma StepTiles(g: Board, s: seq<Pos>, d: Delta, k: nat)
    requires Schedulable(g, s, d) && k < |s|
    ensures Tiles(Shifted(g, s[..k + 1], d)) == Tiles(Shifted(g, s[..k], d))
  {
    if s[k] in s[..k] {
      ShiftSkip(g, s, d, k);
    } else {
      ShiftStep(g, s, d, k);
      TilesSwap(Shifted(g, s[..k], d), s[k], PosAdd(s[k], d));
    }
  }

  /** Whatever was in a moved cell is found one step further on. */
  lemma ShiftCarries(g: Board, s: seq<Pos>, d: Delta, i: nat)
    requires i < |s| && InBoard(g, s[i]) && InBoard(g, PosAdd(s[i], d))
    ensures At(Shifted(g, s, d), PosAdd(s[i], d)) == At(g, s[i])
  {
    assert PosSub(PosAdd(s[i], d), d) == s[i];
  }

  // ---------------------------------------------------------------------------
  // Directions and distances
  // ---------------------------------------------------------------------------

  /** `Delta{dir, true}`: the step for dir with y growing downwards. */
  function Heading(dir: AbsDirection): (d: Delta)
    ensures Unit(d)
  {
    DeltaOf(dir, true)
  }

  /** How far p lies along the unit step d. */
  function Proj(p: Pos, d: Delta): int
  {
    if d.dx == 1 then p.x else if d.dx == -1 then -p.x else if d.dy == 1 then p.y else -p.y
  }

  lemma ProjStep(p: Pos, d: Delta)
    requires Unit(d)
    ensures Proj(PosAdd(p, d), d) == Proj(p, d) + 1
  {
  }

  // ---------------------------------------------------------------------------
  // The robot's start: the last `@` in row-major order
  // ---------------------------------------------------------------------------

  predicate RowMajorBefore(p: Pos, q: Pos)
  {
    p.y < q.y || (p.y == q.y && p.x < q.x)
  }

  /**
   * p is the last `@` among the cells before `stop` in row-major order, or
   * NoRobot when there is none.
   */
  ghost predicate LastRobotBefore(g: Board, p: Pos, stop: Pos)
  {
    (p == NoRobot || (InBoard(g, p) && RowMajorBefore(p, stop) && At(g, p) == '@'))
    && (forall c :: InBoard(g, c) && RowMajorBefore(c, stop) && At(g, c) == '@' ==> c == p || RowMajorBefore(c, p))
  }

  /** Where scanning the whole floor for `@` leaves the robot. */
  ghost predicate RobotLast(g: Board, p: Pos)
  {
    LastRobotBefore(g, p, Pos(0, |g|))
  }

  /** Scanning one more cell. */
  lemma RobotStep(g: Board, p: Pos, x: int, y: int)
    requires InBoard(g, Pos(x, y)) && LastRobotBefore(g, p, Pos(x, y))
    ensures LastRobotBefore(g, if g[y][x] == '@' then Pos(x, y) else p, Pos(x + 1, y))
  {
  }

  /** A finished row is the same stop as the start of the next one. */
  lemma RowDone(g: Board, p: Pos, y: int, w: int)
    requires forall r :: 0 <= r < |g| ==> |g[r]| == w
    requires LastRobotBefore(g, p, Pos(w, y))
    ensures LastRobotBefore(g, p, Pos(0, y + 1))
  {
  }

  /** The cells of an array, row by row. */
  ghost function Contents(a: array2<char>): (g: Board)
    reads a
    ensures |g| == a.Length0 && forall y :: 0 <= y < |g| ==> |g[y]| == a.Length1
    ensures forall y, x :: 0 <= y < a.Length0 && 0 <= x < a.Length1 ==> g[y][x] == a[y, x]
  {
    seq(a.Length0, y requires 0 <= y < a.Length0 reads a =>
      seq(a.Length1, x requires 0 <= y < a.Length0 && 0 <= x < a.Length1 reads a => a[y, x]))
  }

  /** The constructor's scan of the floor (`for_each` in row-major order). */
  method FindRobot(a: array2<char>) returns (p: Pos)
    ensures RobotLast(Contents(a), p)
  {
    p := NoRobot;
    ghost var g := Contents(a);
    for y := 0 to a.Length0
      invariant LastRobotBefore(g, p, Pos(0, y))
    {
      for x := 0 to a.Length1
        invariant LastRobotBefore(g, p, Pos(x, y))
      {
        RobotStep(g, p, x, y);
        if a[y, x] == '@' {
          p := Pos(x, y);
        }
      }
      RowDone(g, p, y, a.Length1);
    }
  }

  // ---------------------------------------------------------------------------
  // GPS coordinates
  // ---------------------------------------------------------------------------

  /** A cell whose GPS coordinate counts: a small box or the left half of a wide one. */
  predicate Counted(t: char)
  {
    t == 'O' || t == '['
  }

  /** The sum of 100 * y + x over the counted cells among the first n of row y. */
  function GpsRow(row: seq<char>, y: int, n: nat): int
    requires n <= |row|
  {
    if n == 0 then 0 else GpsRow(row, y, n - 1) + (if Counted(row[n - 1]) then 100 * y + (n - 1) else 0)
  }

  /** The sum of 100 * y + x over the counted cells of the first n rows. */
  function Gps(g: Board, n: nat): int
    requires n <= |g|
  {
    if n == 0 then 0 else Gps(g, n - 1) + GpsRow(g[n - 1], n - 1, |g[n - 1]|)
  }

  // ---------------------------------------------------------------------------
  // Widening
  // ---------------------------------------------------------------------------

  /** The two cells a tile becomes when the floor is widened; other tiles stay '\0'. */
  function WideLeft(t: char): char
  {
    if t == '#' then '#' else if t == 'O' then '[' else if t == '.' then '.' else if t == '@' then '@' else '\0'
  }

  function WideRight(t: char): char
  {
    if t == '#' then '#' else if t == 'O' then ']' else if t == '.' then '.' else if t == '@' then '.' else '\0'
  }

  function WidenRow(row: seq<char>): (r: seq<char>)
    ensures |r| == 2 * |row|
  {
    seq(2 * |row|, x requires 0 <= x < 2 * |row| => if x % 2 == 0 then WideLeft(row[x / 2]) else WideRight(row[x / 2]))
  }

  function WidenBoard(g: Board): (r: Board)
    ensures |r| == |g|
  {
    seq(|g|, y requires 0 <= y < |g| => WidenRow(g[y]))
  }

  /** A row written pair by pair is the widened row. */
  lemma WidenRowPairs(row: seq<char>, wide: seq<char>)
    requires |wide| == 2 * |row|
    requires forall x :: 0 <= x < |row| ==> wide[2 * x] == WideLeft(row[x]) && wide[2 * x + 1] == WideRight(row[x])
    ensures wide == WidenRow(row)
  {
    forall x | 0 <= x < |wide|
      ensures wide[x] == WidenRow(row)[x]
    {
      var h := x / 2;
      assert x == 2 * h + x % 2;
    }
  }

  /** The tile a widened pair of cells came from. */
  function Narrow(l: char, r: char): char
  {
    if l == '[' && r == ']' then 'O' else l
  }

  function NarrowRow(row: seq<char>): (r: seq<char>)
    ensures |r| == |row| / 2
  {
    seq(|row| / 2, x requires 0 <= x < |row| / 2 => Narrow(row[2 * x], row[2 * x + 1]))
  }

  /** A tile the puzzle input can hold. */
  predicate Plain(t: char)
  {
    t == '#' || t == 'O' || t == '.' || t == '@'
  }

  /** Widening loses nothing: narrowing the wide floor gives back the original one. */
  lemma NarrowWiden(g: Board)
    requires forall y, x :: 0 <= y < |g| && 0 <= x < |g[y]| ==> Plain(g[y][x])
    ensures forall y :: 0 <= y < |g| ==> NarrowRow(WidenBoard(g)[y]) == g[y]
  {
    forall y | 0 <= y < |g|
      ensures NarrowRow(WidenBoard(g)[y]) == g[y]
    {
      var w := WidenBoard(g)[y];
      forall x | 0 <= x < |g[y]|
        ensures NarrowRow(w)[x] == g[y][x]
      {
        assert (2 * x) % 2 == 0 && (2 * x) / 2 == x;
        assert (2 * x + 1) % 2 == 1 && (2 * x + 1) / 2 == x;
      }
    }
  }

  /** The wide robot sits on the left half of the narrow robot's cell. */
  function WidePos(p: Pos): Pos
  {
    if p == NoRobot then NoRobot else Pos(2 * p.x, p.y)
  }

  /** Scanning the wide floor for `@` finds the widened position of the narrow robot. */
  lemma WidenRobot(g: Board, p: Pos)
    requires forall y :: 0 <= y < |g| ==> |g[y]| == |g[0]|
    requires RobotLast(g, p)
    ensures RobotLast(WidenBoard(g), WidePos(p))
  {
    var wg := WidenBoard(g);
    if p != NoRobot {
      assert (2 * p.x) % 2 == 0 && (2 * p.x) / 2 == p.x;
    }
    forall c | InBoard(wg, c) && RowMajorBefore(c, Pos(0, |wg|)) && At(wg, c) == '@'
      ensures c == WidePos(p) || RowMajorBefore(c, WidePos(p))
    {
      var n := Pos(c.x / 2, c.y);
      assert c.x % 2 == 0 && At(g, n) == '@';
      assert n == p || RowMajorBefore(n, p);
    }
  }

  /** Cells (x, y) and (x + 1, y) of a get l and r; nothing else changes. */
  method WritePair(a: array2<char>, y: int, x: int, l: char, r: char)
    requires 0 <= y < a.Length0 && 0 <= x && x + 1 < a.Length1
    modifies a
    ensures a[y, x] == l && a[y, x + 1] == r
    ensures forall yy, xx :: 0 <= yy < a.Length0 && 0 <= xx < a.Length1 && (yy != y || (xx != x && xx != x + 1)) ==>
      a[yy, xx] == old(a[yy, xx])
  {
    a[y, x] := l;
    a[y, x + 1] := r;
  }

  // ---------------------------------------------------------------------------
  // The warehouse
  // ---------------------------------------------------------------------------

  /** `Warehouse`: the floor and the robot's position on it. */
  class Warehouse {
    const cells: array2<char>
    var robotPos: Pos

    ghost function Cells(): Board
      reads cells
    {
      Contents(cells)
    }

    predicate InBounds(p: Pos)
    {
      0 <= p.y < cells.Length0 && 0 <= p.x < cells.Length1
    }

    function Tile(p: Pos): char
      reads cells
      requires InBounds(p)
    {
      cells[p.y, p.x]
    }

    /** The robot is on the floor, or there was no `@` to put it on. */
    ghost predicate Valid()
      reads this
    {
      robotPos == NoRobot || InBounds(robotPos)
    }

    /** `Warehouse(lines)`: the floor as given, the robot at the last `@`. */
    constructor (lines: seq<string>)
      requires |lines| > 0 && forall y :: 0 <= y < |lines| ==> |lines[y]| == |lines[0]|
      ensures Valid() && fresh(cells)
      ensures Cells() == lines
      ensures RobotLast(lines, robotPos)
    {
      var w := |lines[0]|;
      cells := new char[|lines|, w]((y, x) requires 0 <= y < |lines| && 0 <= x < w => lines[y][x]);
      new;
      assert Cells() == lines by {
        forall y | 0 <= y < |lines|
          ensures Cells()[y] == lines[y]
        {
        }
      }
      robotPos := FindRobot(cells);
    }

    /** The private `Warehouse(width, height)`: every cell '\0', no robot. */
    constructor Blank(width: nat, height: nat)
      ensures fresh(cells) && cells.Length0 == height && cells.Length1 == width
      ensures robotPos == NoRobot && Valid()
    {
      cells := new char[height, width]((y, x) => '\0');
      robotPos := NoRobot;
    }

    /** How many more steps along d stay on the floor. */
    function Steps(p: Pos, d: Delta): nat
    {
      var s :=
        if d.dx == 1 then cells.Length1 - 1 - p.x
        else if d.dx == -1 then p.x
        else if d.dy == 1 then cells.Length0 - 1 - p.y
        else p.y;
      if s < 0 then 0 else s
    }

    /**
     * Entry i of r is a box that can go one step along d: its target is on
     * the floor and either empty or listed earlier, and it lies ahead of pos.
     */
    ghost predicate Pushed(pos: Pos, d: Delta, r: seq<Pos>, i: int)
      reads cells
      requires 0 <= i < |r|
    {
      InBounds(r[i]) && InBounds(PosAdd(r[i], d)) && IsBox(Tile(r[i]))
      && Proj(r[i], d) > Proj(pos, d)
      && (Tile(PosAdd(r[i], d)) == '.' || PosAdd(r[i], d) in r[..i])
    }

    /** Moving from pos along d is possible once the boxes of r have moved, in order. */
    ghost predicate Pushable(pos: Pos, d: Delta, r: seq<Pos>)
      reads cells
    {
      InBounds(PosAdd(pos, d))
      && (Tile(PosAdd(pos, d)) == '.' || PosAdd(pos, d) in r)
      && forall i :: 0 <= i < |r| ==> Pushed(pos, d, r, i)
    }

    lemma PushSnoc(pos: Pos, d: Delta, sub: seq<Pos>, next: Pos)
      requires Unit(d) && next == PosAdd(pos, d) && InBounds(next) && IsBox(Tile(next))
      requires Pushable(next, d, sub)
      ensures Pushable(pos, d, sub + [next])
    {
      var r := sub + [next];
      ProjStep(pos, d);
      forall i | 0 <= i < |r|
        ensures Pushed(pos, d, r, i)
      {
        if i < |sub| {
          assert r[..i] == sub[..i];
          assert Pushed(next, d, sub, i);
        } else {
          assert r[..i] == sub;
        }
      }
    }

    lemma PushWide(pos: Pos, d: Delta, left: Pos, right: Pos, l: seq<Pos>, rr: seq<Pos>)
      requires Unit(d) && d.dx == 0
      requires Proj(left, d) == Proj(pos, d) == Proj(right, d)
      requires Pushable(left, d, l) && Pushable(right, d, rr)
      requires PosAdd(pos, d) == PosAdd(left, d) || PosAdd(pos, d) == PosAdd(right, d)
      requires Tile(PosAdd(pos, d)) != '.'
      ensures Pushable(pos, d, l + rr)
    {
      var r := l + rr;
      forall i | 0 <= i < |r|
        ensures Pushed(pos, d, r, i)
      {
        if i < |l| {
          assert r[..i] == l[..i];
          assert Pushed(left, d, l, i);
        } else {
          var j := i - |l|;
          assert r[..i] == l + rr[..j];
          assert Pushed(right, d, rr, j);
        }
      }
    }

    /**
     * `try_move`: the boxes a step from pos along dir would push, furthest
     * first, or None when a wall or the edge blocks the chain. A vertical
     * step into either half of a wide box pushes from both halves.
     */
    function TryMove(pos: Pos, dir: AbsDirection, wideBox: bool): (r: Option<seq<Pos>>)
      reads cells
      decreases Steps(pos, Heading(dir)), if wideBox then 0 else 1
      ensures !InBounds(PosAdd(pos, Heading(dir))) ==> r == None
      ensures InBounds(PosAdd(pos, Heading(dir))) && Tile(PosAdd(pos, Heading(dir))) == '#' ==> r == None
      ensures InBounds(PosAdd(pos, Heading(dir))) && Tile(PosAdd(pos, Heading(dir))) == '.' ==> r == Some([])
      ensures r.Some? ==> Pushable(pos, Heading(dir), r.value)
    {
      var d := Heading(dir);
      var next := PosAdd(pos, d);
      if !InBounds(next) then None
      else if Tile(next) == '#' then None
      else if Tile(next) == '.' then Some([])
      else if (Tile(next) == '[' || Tile(next) == ']') && d.dy != 0 && !wideBox then
        var left := if Tile(next) == '[' then pos else PosAdd(pos, Delta(-1, 0));
        var right := if Tile(next) == '[' then PosAdd(pos, Delta(1, 0)) else pos;
        var l := TryMove(left, dir, true);
        var rr := TryMove(right, dir, true);
        if l.Some? && rr.Some? then
          PushWide(pos, d, left, right, l.value, rr.value);
          Some(l.value + rr.value)
        else
          None
      else if IsBox(Tile(next)) then
        var sub := TryMove(next, dir, false);
        if sub.Some? then
          PushSnoc(pos, d, sub.value, next);
          Some(sub.value + [next])
        else
          None
      else
        None
    }

    /** The robot and the boxes it pushes can be moved one at a time, in list order. */
    lemma PlanSchedulable(g: Board, pos: Pos, d: Delta, r: seq<Pos>)
      requires g == Cells() && Unit(d) && InBounds(pos) && Pushable(pos, d, r)
      ensures Schedulable(g, r + [pos], d)
    {
      var s := r + [pos];
      ProjStep(pos, d);
      assert s[..|r|] == r;
      forall k | 0 <= k < |s|
        ensures StepOk(g, s, d, k)
      {
        if k < |r| {
          assert s[..k] == r[..k];
          assert Pushed(pos, d, r, k);
        }
        forall i | 0 <= i < k && PosAdd(s[i], d) == s[k]
          ensures s[k] in s[..i]
        {
          EarlierTarget(pos, d, r, i, k);
          assert s[..i] == r[..i];
        }
      }
    }

    /** What a successful plan gives `move_robot`: a schedule, and the robot's tile carried one step. */
    lemma PlanFacts(g: Board, pos: Pos, dir: AbsDirection)
      requires g == Cells() && (pos == NoRobot || InBounds(pos)) && TryMove(pos, dir, false).Some?
      ensures InBounds(pos) && InBounds(PosAdd(pos, Heading(dir))) && Tile(pos) == At(g, pos)
      ensures Schedulable(g, TryMove(pos, dir, false).value + [pos], Heading(dir))
      ensures At(Shifted(g, TryMove(pos, dir, false).value + [pos], Heading(dir)), PosAdd(pos, Heading(dir))) == At(g, pos)
    {
      var d := Heading(dir);
      var r := TryMove(pos, dir, false).value;
      var s := r + [pos];
      TileAt(pos);
      TileAt(PosAdd(pos, d));
      assert s[|s| - 1] == pos;
      ShiftCarries(g, s, d, |s| - 1);
      PlanSchedulable(g, pos, d, r);
    }

    /** A box that an earlier entry moves into was itself listed before that entry. */
    lemma EarlierTarget(pos: Pos, d: Delta, r: seq<Pos>, i: nat, k: nat)
      requires Unit(d) && Pushable(pos, d, r)
      requires i < k <= |r| && PosAdd(r[i], d) == (r + [pos])[k]
      ensures (r + [pos])[k] in r[..i]
    {
      assert Pushed(pos, d, r, i);
      ProjStep(r[i], d);
      if k < |r| {
        assert Pushed(pos, d, r, k);
      }
    }

    /** `move_robot`: push the robot and the boxes ahead of it one step, unless blocked. */
    method MoveRobot(dir: AbsDirection)
      requires Valid()
      modifies this, cells
      ensures Valid()
      ensures old(TryMove(robotPos, dir, false)).None? ==> robotPos == old(robotPos) && Cells() == old(Cells())
      ensures old(TryMove(robotPos, dir, false)).Some? ==>
        robotPos == PosAdd(old(robotPos), Heading(dir))
        && Cells() == Shifted(old(Cells()), old(TryMove(robotPos, dir, false)).value + [old(robotPos)], Heading(dir))
      ensures old(TryMove(robotPos, dir, false)).Some? ==>
        old(InBounds(robotPos)) && InBounds(robotPos) && Tile(robotPos) == old(Tile(robotPos))
      ensures Tiles(Cells()) == old(Tiles(Cells()))
    {
      var plan := TryMove(robotPos, dir, false);
      if plan.Some? {
        var d := Heading(dir);
        var s := plan.value + [robotPos];
        ghost var g := Cells();
        PlanFacts(g, robotPos, dir);
        ExecuteMoves(g, s, d);
        robotPos := PosAdd(robotPos, d);
        TileAt(robotPos);
      }
    }

    /**
     * The swap loop of `move_robot`: each listed cell whose target has not
     * been filled yet trades places with that (empty) target.
     */
    method ExecuteMoves(ghost g: Board, s: seq<Pos>, d: Delta)
      requires g == Cells() && Schedulable(g, s, d)
      modifies cells
      ensures Cells() == Shifted(g, s, d)
      ensures Tiles(Cells()) == Tiles(g)
    {
      ShiftNothing(g, s[..0], d);
      var moved: set<Pos> := {};
      var k := 0;
      while k < |s|
        invariant 0 <= k <= |s|
        invariant moved == Targets(s[..k], d)
        invariant Cells() == Shifted(g, s[..k], d)
      {
        moved := ExecuteMove(g, s, d, k, moved);
        k := k + 1;
      }
      assert s[..|s|] == s;
      ShiftTiles(g, s, d, |s|);
    }

    /** One pass of the swap loop: entry k of the list. */
    method ExecuteMove(ghost g: Board, s: seq<Pos>, d: Delta, k: nat, moved: set<Pos>) returns (moved': set<Pos>)
      requires Schedulable(g, s, d) && k < |s|
      requires |g| == cells.Length0 && forall y :: 0 <= y < |g| ==> |g[y]| == cells.Length1
      requires moved == Targets(s[..k], d)
      requires Cells() == Shifted(g, s[..k], d)
      modifies cells
      ensures moved' == Targets(s[..k + 1], d)
      ensures Cells() == Shifted(g, s[..k + 1], d)
    {
      var q := s[k];
      var t := PosAdd(q, d);
      TargetsStep(s, d, k);
      moved' := moved;
      if t !in moved {
        ShiftStep(g, s, d, k);
        BoundsOf(q);
        BoundsOf(t);
        SwapCells(q, t);
        moved' := moved + {t};
      } else {
        ShiftSkip(g, s, d, k);
      }
    }

    lemma TileAt(p: Pos)
      requires InBounds(p)
      ensures InBoard(Cells(), p) && At(Cells(), p) == Tile(p)
    {
    }

    lemma BoundsOf(p: Pos)
      ensures InBounds(p) <==> InBoard(Cells(), p)
    {
    }

    /** std::swap(grid[p], grid[q]). */
    method SwapCells(p: Pos, q: Pos)
      requires InBounds(p) && InBounds(q)
      modifies cells
      ensures Cells() == SwapBoard(old(Cells()), p, q)
    {
      ghost var g := Cells();
      var a := cells[p.y, p.x];
      cells[p.y, p.x] := cells[q.y, q.x];
      cells[q.y, q.x] := a;
      forall y | 0 <= y < cells.Length0
        ensures Cells()[y] == SwapBoard(g, p, q)[y]
      {
        forall x | 0 <= x < cells.Length1
          ensures Cells()[y][x] == SwapBoard(g, p, q)[y][x]
        {
          SwapAt(g, p, q, Pos(x, y));
        }
      }
    }

    /** `gps_sum`: 100 * y + x summed over the boxes (their left halves when wide). */
    method GpsSum() returns (sum: int)
      ensures sum == Gps(Cells(), cells.Length0)
    {
      ghost var g := Cells();
      sum := 0;
      for y := 0 to cells.Length0
        invariant sum == Gps(g, y)
      {
        for x := 0 to cells.Length1
          invariant sum == Gps(g, y) + GpsRow(g[y], y, x)
        {
          if cells[y, x] == 'O' || cells[y, x] == '[' {
            sum := sum + 100 * y + x;
          }
        }
      }
    }

    /** `widen`: every tile becomes two cells side by side; the robot keeps the left one. */
    method Widen() returns (wider: Warehouse)
      ensures fresh(wider) && fresh(wider.cells) && wider.Valid()
      ensures wider.Cells() == WidenBoard(Cells())
      ensures RobotLast(wider.Cells(), wider.robotPos)
    {
      wider := new Warehouse.Blank(2 * cells.Length1, cells.Length0);
      ghost var g := Cells();
      ghost var p := NoRobot;
      for y := 0 to cells.Length0
        invariant wider.Valid() && wider.robotPos == WidePos(p)
        invariant LastRobotBefore(g, p, Pos(0, y))
        invariant forall yy :: 0 <= yy < y ==> wider.Cells()[yy] == WidenRow(g[yy])
      {
        p := WidenRowInto(wider, y, g, p);
      }
      assert wider.Cells() == WidenBoard(g);
      WidenRobot(g, p);
    }

    /** One row of `widen`'s `for_each`. */
    method WidenRowInto(wider: Warehouse, y: int, ghost g: Board, ghost p0: Pos) returns (ghost p: Pos)
      requires 0 <= y < cells.Length0 && wider.cells != cells && g == Cells()
      requires wider.cells.Length0 == cells.Length0 && wider.cells.Length1 == 2 * cells.Length1
      requires wider.Valid() && wider.robotPos == WidePos(p0)
      requires LastRobotBefore(g, p0, Pos(0, y))
      modifies wider, wider.cells
      ensures wider.Valid() && wider.robotPos == WidePos(p)
      ensures LastRobotBefore(g, p, Pos(0, y + 1))
      ensures wider.Cells()[y] == WidenRow(g[y])
      ensures forall yy :: 0 <= yy < cells.Length0 && yy != y ==> wider.Cells()[yy] == old(wider.Cells())[yy]
    {
      ghost var before := wider.Cells();
      p := p0;
      var w := cells.Length1;
      for x := 0 to w
        invariant wider.Valid() && wider.robotPos == WidePos(p)
        invariant LastRobotBefore(g, p, Pos(x, y))
        invariant forall xx :: 0 <= xx < x ==>
          wider.cells[y, 2 * xx] == WideLeft(g[y][xx]) && wider.cells[y, 2 * xx + 1] == WideRight(g[y][xx])
        invariant forall yy, xx :: 0 <= yy < cells.Length0 && yy != y && 0 <= xx < 2 * w ==>
          wider.cells[yy, xx] == before[yy][xx]
      {
        var tile := cells[y, x];
        RobotStep(g, p, x, y);
        WritePair(wider.cells, y, 2 * x, WideLeft(tile), WideRight(tile));
        if tile == '@' {
          wider.robotPos := Pos(2 * x, y);
          p := Pos(x, y);
        }
      }
      RowDone(g, p, y, w);
      WidenRowPairs(g[y], wider.Cells()[y]);
      forall yy | 0 <= yy < cells.Length0 && yy != y
        ensures wider.Cells()[yy] == before[yy]
      {
      }
    }
  }
}
