/**
 * 2023 day 14 (2023/src/day14.hpp): a platform of round rocks, which
 * roll, and cube rocks, which stay put. Tilting rolls every round rock
 * towards x = 0 until a cube, another rock or the edge stops it; rotations
 * of the square platform turn the other directions into that one.
 *
 * The platform's cells are an `array2` indexed `[y, x]`: row y, column x.
 */
module Y2023Day14 {
  import Grids

  datatype Rock = Empty | Round | Cube

  /** The number of cells of kind `k` in a row. */
  function CountOf(r: seq<Rock>, k: Rock): nat
  {
    if r == [] then 0 else CountOf(r[..|r| - 1], k) + (if r[|r| - 1] == k then 1 else 0)
  }

  lemma {:induction false} CountOfAppend(a: seq<Rock>, b: seq<Rock>, k: Rock)
    ensures CountOf(a + b, k) == CountOf(a, k) + CountOf(b, k)
  {
    if b != [] {
      assert (a + b)[..|a + b| - 1] == a + b[..|b| - 1];
      CountOfAppend(a, b[..|b| - 1], k);
    } else {
      assert a + b == a;
    }
  }

  // ---------------------------------------------------------------------------
  // Rolling one row
  // ---------------------------------------------------------------------------

  /** Where the last run of cells without a cube starts: just after the last cube, or 0. */
  function Start(r: seq<Rock>): (s: nat)
    ensures s <= |r|
  {
    if r == [] then 0 else if r[|r| - 1] == Cube then |r| else Start(r[..|r| - 1])
  }

  /** The last run has no cube, and a cube just before it unless it starts the row. */
  lemma {:induction false} StartFacts(r: seq<Rock>)
    ensures Start(r) > 0 ==> r[Start(r) - 1] == Cube
    ensures forall k :: Start(r) <= k < |r| ==> r[k] != Cube
  {
    if r != [] && r[|r| - 1] != Cube {
      StartFacts(r[..|r| - 1]);
    }
  }

  /** `n` cells whose first `c` hold round rocks and the rest are empty. */
  function Runs(c: nat, n: nat): (r: seq<Rock>)
    ensures |r| == n
  {
    seq(n, k => if k < c then Round else Empty)
  }

  lemma {:induction false} RunsCount(c: nat, n: nat)
    requires c <= n
    ensures CountOf(Runs(c, n), Round) == c
  {
    if n > 0 {
      if c == n {
        assert Runs(c, n)[..n - 1] == Runs(c - 1, n - 1);
        RunsCount(c - 1, n - 1);
      } else {
        assert Runs(c, n)[..n - 1] == Runs(c, n - 1);
        RunsCount(c, n - 1);
      }
    }
  }

  lemma RunsRound(c: nat, n: nat)
    requires c < n
    ensures Runs(c + 1, n + 1) == Runs(c, n)[c := Round] + [Empty]
  {
    var a := Runs(c + 1, n + 1);
    var b := Runs(c, n)[c := Round] + [Empty];
    forall k | 0 <= k < |a| ensures a[k] == b[k] {
      if k < n {
        assert b[k] == Runs(c, n)[c := Round][k];
      }
    }
  }

  lemma RunsSnoc(c: nat, n: nat)
    requires c <= n
    ensures Runs(c, n + 1) == Runs(c, n) + [Empty]
    ensures c == n ==> Runs(c + 1, n + 1) == Runs(c, n) + [Round]
  {
    assert forall k :: 0 <= k < n ==> Runs(c, n + 1)[k] == (Runs(c, n) + [Empty])[k];
    if c == n {
      assert forall k :: 0 <= k < n ==> Runs(c + 1, n + 1)[k] == (Runs(c, n) + [Round])[k];
    }
  }

  /** A run of cells without cubes once its round rocks have rolled: all round rocks first. */
  function Gather(seg: seq<Rock>): (r: seq<Rock>)
  {
    Runs(CountOf(seg, Round), |seg|)
  }

  lemma {:induction false} CountOfBound(r: seq<Rock>, k: Rock)
    ensures CountOf(r, k) <= |r|
  {
    if r != [] {
      CountOfBound(r[..|r| - 1], k);
    }
  }

  /**
   * A row once every round rock has rolled towards x = 0: each run between
   * cubes keeps its cubes' positions and has its round rocks at its start.
   */
  function Rolled(r: seq<Rock>): (out: seq<Rock>)
    ensures |out| == |r|
    decreases |r|
  {
    var s := Start(r);
    if s == 0 then Gather(r)
    else Rolled(r[..s - 1]) + [Cube] + Gather(r[s..])
  }

  /** Rolling keeps every cube where it is and puts no cube anywhere else. */
  lemma {:induction false} RolledCubes(r: seq<Rock>)
    ensures forall k :: 0 <= k < |r| ==> (Rolled(r)[k] == Cube <==> r[k] == Cube)
    decreases |r|
  {
    var s := Start(r);
    RolledSplit(r);
    StartFacts(r);
    var d, g := Done(r), Gather(r[s..]);
    var out := Rolled(r);
    assert out == d + g;
    if s > 0 {
      RolledCubes(r[..s - 1]);
    }
    forall k | 0 <= k < |r| ensures out[k] == Cube <==> r[k] == Cube {
      if k >= s {
        assert out[k] == g[k - s];
      } else if k == s - 1 {
        assert out[k] == d[k] == Cube;
      } else {
        assert out[k] == d[k] == Rolled(r[..s - 1])[k];
        assert r[k] == r[..s - 1][k];
      }
    }
  }

  /** Rolling keeps the number of round rocks. */
  lemma {:induction false} RolledRoundCount(r: seq<Rock>)
    ensures CountOf(Rolled(r), Round) == CountOf(r, Round)
    decreases |r|, 1
  {
    var s := Start(r);
    var seg := r[s..];
    RolledSplit(r);
    assert CountOf(Gather(seg), Round) == CountOf(seg, Round) by {
      RunsCount(CountOf(seg, Round), |seg|);
    }
    CountOfAppend(Done(r), Gather(seg), Round);
    assert r == r[..s] + seg;
    CountOfAppend(r[..s], seg, Round);
    DoneRoundCount(r);
  }

  /** The part before the last run keeps its number of round rocks. */
  lemma {:induction false} DoneRoundCount(r: seq<Rock>)
    ensures CountOf(Done(r), Round) == CountOf(r[..Start(r)], Round)
    decreases |r|, 0
  {
    var s := Start(r);
    if s > 0 {
      StartFacts(r);
      RolledRoundCount(r[..s - 1]);
      assert r[..s] == r[..s - 1] + [Cube];
      CountOfAppend(Rolled(r[..s - 1]), [Cube], Round);
      CountOfAppend(r[..s - 1], [Cube], Round);
      assert [Cube][..0] == [];
    } else {
      assert r[..0] == [];
    }
  }

  /** No round rock has an empty cell just before it: every round rock has rolled until blocked. */
  predicate Settled(r: seq<Rock>)
  {
    forall k :: 0 <= k < |r| - 1 && r[k] == Empty ==> r[k + 1] != Round
  }

  lemma {:induction false} RolledSettled(r: seq<Rock>)
    ensures Settled(Rolled(r))
    decreases |r|
  {
    var s := Start(r);
    CountOfBound(r[s..], Round);
    var g := Gather(r[s..]);
    if s > 0 {
      RolledSettled(r[..s - 1]);
      var a := Rolled(r[..s - 1]);
      var out := a + [Cube] + g;
      assert out == Rolled(r);
      forall k | 0 <= k < |out| - 1 && out[k] == Empty ensures out[k + 1] != Round {
        if k + 1 < |a| {
          assert out[k] == a[k] && out[k + 1] == a[k + 1];
        }
      }
    }
  }

  /** The rolled part of a row before its last run: everything up to and including the last cube. */
  function Done(r: seq<Rock>): (d: seq<Rock>)
    ensures |d| == Start(r)
  {
    var s := Start(r);
    if s == 0 then [] else Rolled(r[..s - 1]) + [Cube]
  }

  lemma RolledSplit(r: seq<Rock>)
    ensures CountOf(r[Start(r)..], Round) <= |r[Start(r)..]|
    ensures Rolled(r) == Done(r) + Gather(r[Start(r)..])
  {
    CountOfBound(r[Start(r)..], Round);
    if Start(r) == 0 {
      assert r[0..] == r;
    }
  }

  /** A cell that is not a cube joins the last run and leaves the part before it alone. */
  lemma DoneSnoc(p: seq<Rock>, x: Rock)
    requires x != Cube
    ensures Start(p + [x]) == Start(p) && Done(p + [x]) == Done(p)
    ensures (p + [x])[Start(p)..] == p[Start(p)..] + [x]
  {
    var q := p + [x];
    assert q[..|q| - 1] == p;
    var s := Start(p);
    assert q[..s] == p[..s];
    if s > 0 {
      assert q[..s - 1] == p[..s - 1];
    }
  }

  /** An empty cell joins a gathered run at its end. */
  lemma GatherEmpty(seg: seq<Rock>)
    ensures CountOf(seg + [Empty], Round) == CountOf(seg, Round)
    ensures Gather(seg + [Empty]) == Gather(seg) + [Empty]
  {
    assert (seg + [Empty])[..|seg|] == seg;
    CountOfBound(seg, Round);
    RunsSnoc(CountOf(seg, Round), |seg|);
  }

  /** A round rock joins a gathered run at its first empty cell, or at its end when it has none. */
  lemma GatherRound(seg: seq<Rock>)
    requires CountOf(seg, Round) <= |seg|
    ensures CountOf(seg + [Round], Round) == CountOf(seg, Round) + 1
    ensures var c := CountOf(seg, Round);
      c < |seg| ==> Gather(seg + [Round]) == Gather(seg)[c := Round] + [Empty]
    ensures CountOf(seg, Round) == |seg| ==> Gather(seg + [Round]) == Gather(seg) + [Round]
  {
    var t := seg + [Round];
    assert t[..|t| - 1] == seg;
    var c := CountOf(seg, Round);
    assert CountOf(t, Round) == c + 1;
    assert Gather(t) == Runs(c + 1, |seg| + 1);
    if c < |seg| {
      RunsRound(c, |seg|);
    } else {
      RunsSnoc(c, |seg|);
    }
  }

  /** A cube ends the run and is appended unchanged. */
  lemma RolledCube(p: seq<Rock>)
    ensures Start(p + [Cube]) == |p| + 1 && Rolled(p + [Cube]) == Rolled(p) + [Cube]
  {
    var q := p + [Cube];
    assert q[..|q| - 1] == p;
    assert Start(q) == |q|;
    assert q[|q|..] == [];
    assert Gather([]) == [];
    assert Rolled(q) == Rolled(q[..|q| - 1]) + [Cube] + Gather(q[|q|..]);
  }

  /** An empty cell joins the last run at its end. */
  lemma RolledEmpty(p: seq<Rock>)
    ensures Start(p + [Empty]) == Start(p) && Rolled(p + [Empty]) == Rolled(p) + [Empty]
  {
    var s := Start(p);
    DoneSnoc(p, Empty);
    RolledSplit(p);
    RolledSplit(p + [Empty]);
    GatherEmpty(p[s..]);
    var d, g := Done(p), Gather(p[s..]);
    assert Rolled(p + [Empty]) == d + (g + [Empty]);
    SnocAssoc(d, g, Empty);
  }

  /** The cells of the current run in the rolled prefix: round rocks, then empty cells. */
  lemma RolledRun(p: seq<Rock>)
    ensures var s := Start(p); var c := CountOf(p[s..], Round);
      c <= |p| - s
      && (forall k :: s <= k < s + c ==> Rolled(p)[k] == Round)
      && (forall k :: s + c <= k < |p| ==> Rolled(p)[k] == Empty)
  {
    RolledSplit(p);
  }

  /** A round rock arriving at a run with an empty cell takes the first empty cell. */
  lemma RolledRoundFits(p: seq<Rock>, s: nat, c: nat)
    requires s == Start(p) && c == CountOf(p[s..], Round) && c < |p| - s
    ensures Start(p + [Round]) == s
    ensures Rolled(p + [Round]) == Rolled(p)[s + c := Round] + [Empty]
  {
    DoneSnoc(p, Round);
    RolledSplit(p);
    RolledSplit(p + [Round]);
    GatherRound(p[s..]);
    var q := p + [Round];
    var d, g := Done(p), Gather(p[s..]);
    assert Start(q) == s && Done(q) == d && q[s..] == p[s..] + [Round];
    assert Rolled(q) == d + (g[c := Round] + [Empty]);
    assert Rolled(p) == d + g;
    FitsAlgebra(d, g, s, c);
  }

  /** The sequence algebra behind `RolledRoundFits`. */
  lemma FitsAlgebra(d: seq<Rock>, g: seq<Rock>, s: nat, c: nat)
    requires |d| == s && c < |g|
    ensures d + (g[c := Round] + [Empty]) == (d + g)[s + c := Round] + [Empty]
  {
    var lhs := d + (g[c := Round] + [Empty]);
    var rhs := (d + g)[s + c := Round] + [Empty];
    assert |lhs| == |rhs|;
    forall k | 0 <= k < |lhs| ensures lhs[k] == rhs[k] {
      if k < s {
        assert lhs[k] == d[k] && rhs[k] == (d + g)[k] == d[k];
      } else if k < s + |g| {
        assert lhs[k] == g[c := Round][k - s];
      }
    }
  }

  /** A round rock arriving at a run without an empty cell stays where it is. */
  lemma RolledRoundFull(p: seq<Rock>)
    requires CountOf(p[Start(p)..], Round) == |p| - Start(p)
    ensures Start(p + [Round]) == Start(p)
    ensures Rolled(p + [Round]) == Rolled(p) + [Round]
  {
    var s := Start(p);
    DoneSnoc(p, Round);
    RolledSplit(p);
    RolledSplit(p + [Round]);
    GatherRound(p[s..]);
    var q := p + [Round];
    var d, g := Done(p), Gather(p[s..]);
    assert Start(q) == s && Done(q) == d && q[s..] == p[s..] + [Round];
    assert Gather(q[s..]) == g + [Round];
    assert Rolled(q) == Done(q) + Gather(q[s..]);
    assert Rolled(p) == d + g;
    SnocAssoc(d, g, Round);
  }

  /** The first empty cell of the last run of `p`, or `none` when that run has none. */
  function FirstEmpty(p: seq<Rock>, none: int): int
  {
    var s := Start(p);
    var c := CountOf(p[s..], Round);
    if c < |p| - s then s + c else none
  }

  /**
   * The state of `roll_row_down` after `i` cells of the row `orig`: the
   * first `i` cells rolled, the rest untouched, and `lastEmpty` the first
   * empty cell of the current run (the row's width when there is none).
   */
  predicate RollState(cur: seq<Rock>, orig: seq<Rock>, i: nat, lastEmpty: int)
  {
    |cur| == |orig| && i <= |orig| && cur[..i] == Rolled(orig[..i]) && cur[i..] == orig[i..]
    && lastEmpty == FirstEmpty(orig[..i], |orig|)
  }

  lemma RollStart(orig: seq<Rock>)
    ensures RollState(orig, orig, 0, |orig|)
  {
    assert orig[..0] == [];
    assert Start([]) == 0;
    assert Rolled([]) == [];
  }

  /** A round rock with an empty cell before it in its run is swapped into that cell. */
  lemma RollStepRoundFits(cur: seq<Rock>, orig: seq<Rock>, i: nat, lastEmpty: int)
    requires RollState(cur, orig, i, lastEmpty) && i < |orig| && orig[i] == Round && lastEmpty != |orig|
    ensures 0 <= lastEmpty < i && cur[i] == Round && cur[lastEmpty] == Empty
    ensures RollState(cur[i := Empty][lastEmpty := Round], orig, i + 1, lastEmpty + 1)
  {
    var p := orig[..i];
    assert orig[..i + 1] == p + [Round];
    var s := Start(p);
    var c := CountOf(p[s..], Round);
    RolledRun(p);
    assert cur[i] == cur[i..][0];
    assert cur[lastEmpty] == cur[..i][lastEmpty];
    RolledRoundFits(p, s, c);
    DoneSnoc(p, Round);
    CountOfBound(p[s..], Round);
    GatherRound(p[s..]);
    var next := cur[i := Empty][lastEmpty := Round];
    assert next[..i + 1] == cur[..i][lastEmpty := Round] + [Empty];
    assert next[i + 1..] == cur[i + 1..];
  }

  /** A round rock in a run without an empty cell stays where it is. */
  lemma RollStepRoundFull(cur: seq<Rock>, orig: seq<Rock>, i: nat, lastEmpty: int)
    requires RollState(cur, orig, i, lastEmpty) && i < |orig| && orig[i] == Round && lastEmpty == |orig|
    ensures RollState(cur, orig, i + 1, lastEmpty)
  {
    var p := orig[..i];
    assert orig[..i + 1] == p + [Round];
    RoundFullPrefix(p, |orig|);
    assert cur[i] == cur[i..][0];
    assert cur[..i + 1] == cur[..i] + [Round];
    assert cur[i + 1..] == cur[i..][1..];
  }

  /** The prefix side of `RollStepRoundFull`: rolling is extended by the round rock, and the run still has no empty cell. */
  lemma RoundFullPrefix(p: seq<Rock>, none: int)
    requires none > |p| && FirstEmpty(p, none) == none
    ensures Rolled(p + [Round]) == Rolled(p) + [Round]
    ensures FirstEmpty(p + [Round], none) == none
  {
    var q := p + [Round];
    var s := Start(p);
    var c := CountOf(p[s..], Round);
    CountOfBound(p[s..], Round);
    assert c == |p| - s;
    RolledRoundFull(p);
    DoneSnoc(p, Round);
    GatherRound(p[s..]);
    assert q[s..] == p[s..] + [Round];
    assert CountOf(q[s..], Round) == |q| - s;
  }

  /** A cube stays and starts a run without empty cells. */
  lemma RollStepCube(cur: seq<Rock>, orig: seq<Rock>, i: nat, lastEmpty: int)
    requires RollState(cur, orig, i, lastEmpty) && i < |orig| && orig[i] == Cube
    ensures RollState(cur, orig, i + 1, |orig|)
  {
    var p := orig[..i];
    assert orig[..i + 1] == p + [Cube];
    RolledCube(p);
    assert (p + [Cube])[|p| + 1..] == [];
    assert cur[..i + 1] == cur[..i] + [cur[i]];
    assert cur[i] == cur[i..][0];
  }

  /** An empty cell stays, and becomes the run's first empty cell if it had none. */
  lemma RollStepEmpty(cur: seq<Rock>, orig: seq<Rock>, i: nat, lastEmpty: int)
    requires RollState(cur, orig, i, lastEmpty) && i < |orig| && orig[i] == Empty
    ensures RollState(cur, orig, i + 1, if lastEmpty == |orig| then i else lastEmpty)
  {
    var p := orig[..i];
    assert orig[..i + 1] == p + [Empty];
    RolledEmpty(p);
    EmptyFirstEmpty(p, |orig|);
    assert cur[i] == cur[i..][0];
    assert cur[..i + 1] == cur[..i] + [Empty];
  }

  /** An empty cell becomes the run's first empty cell if it had none, and changes nothing otherwise. */
  lemma EmptyFirstEmpty(p: seq<Rock>, none: int)
    requires none > |p|
    ensures FirstEmpty(p + [Empty], none) == if FirstEmpty(p, none) == none then |p| else FirstEmpty(p, none)
  {
    var q := p + [Empty];
    var s := Start(p);
    var c := CountOf(p[s..], Round);
    CountOfBound(p[s..], Round);
    DoneSnoc(p, Empty);
    GatherEmpty(p[s..]);
    assert Start(q) == s && CountOf(q[s..], Round) == c;
    assert FirstEmpty(q, none) == if c < |q| - s then s + c else none;
  }

  lemma SnocAssoc(a: seq<Rock>, b: seq<Rock>, x: Rock)
    ensures a + (b + [x]) == (a + b) + [x]
  {
  }


  // ---------------------------------------------------------------------------
  // Whole-platform values: rotation and loads
  // ---------------------------------------------------------------------------

  /** Every row is as long as there are rows. */
  predicate Square(g: seq<seq<Rock>>)
  {
    forall y :: 0 <= y < |g| ==> |g[y]| == |g|
  }

  /** `transpose`: cell (x, y) trades places with cell (y, x). */
  function Transposed(g: seq<seq<Rock>>): (t: seq<seq<Rock>>)
    requires Square(g)
    ensures Square(t) && |t| == |g|
  {
    seq(|g|, y requires 0 <= y < |g| => seq(|g|, x requires 0 <= x < |g| => g[x][y]))
  }

  /** `flip_rows`: each row reversed. */
  function FlippedRows(g: seq<seq<Rock>>): (t: seq<seq<Rock>>)
    requires Square(g)
    ensures Square(t) && |t| == |g|
  {
    seq(|g|, y requires 0 <= y < |g| => seq(|g|, x requires 0 <= x < |g| => g[y][|g| - 1 - x]))
  }

  /** `flip_columns`: the order of the rows reversed. */
  function FlippedColumns(g: seq<seq<Rock>>): (t: seq<seq<Rock>>)
    requires Square(g)
    ensures Square(t) && |t| == |g|
  {
    seq(|g|, y requires 0 <= y < |g| => seq(|g|, x requires 0 <= x < |g| => g[|g| - 1 - y][x]))
  }

  /** `rotate_cw`: a quarter turn clockwise. */
  function RotatedCw(g: seq<seq<Rock>>): (t: seq<seq<Rock>>)
    requires Square(g)
    ensures Square(t) && |t| == |g|
    ensures forall y, x :: 0 <= y < |g| && 0 <= x < |g| ==> t[y][x] == g[|g| - 1 - x][y]
  {
    FlippedRows(Transposed(g))
  }

  /** `rotate_ccw`: a quarter turn counter-clockwise. */
  function RotatedCcw(g: seq<seq<Rock>>): (t: seq<seq<Rock>>)
    requires Square(g)
    ensures Square(t) && |t| == |g|
    ensures forall y, x :: 0 <= y < |g| && 0 <= x < |g| ==> t[y][x] == g[x][|g| - 1 - y]
  {
    FlippedColumns(Transposed(g))
  }

  /** On a square platform, `rotate_ccw` undoes `rotate_cw`, and the other way round. */
  lemma RotateInverse(g: seq<seq<Rock>>)
    requires Square(g)
    ensures RotatedCcw(RotatedCw(g)) == g
    ensures RotatedCw(RotatedCcw(g)) == g
  {
    var a := RotatedCcw(RotatedCw(g));
    forall y | 0 <= y < |g| ensures a[y] == g[y] {
      assert forall x :: 0 <= x < |g| ==> a[y][x] == g[y][x];
    }
    var b := RotatedCw(RotatedCcw(g));
    forall y | 0 <= y < |g| ensures b[y] == g[y] {
      assert forall x :: 0 <= x < |g| ==> b[y][x] == g[y][x];
    }
  }

  /** Four clockwise quarter turns give the platform back. */
  lemma RotateFour(g: seq<seq<Rock>>)
    requires Square(g)
    ensures RotatedCw(RotatedCw(RotatedCw(RotatedCw(g)))) == g
  {
    var a := RotatedCw(RotatedCw(RotatedCw(RotatedCw(g))));
    forall y | 0 <= y < |g| ensures a[y] == g[y] {
      assert forall x :: 0 <= x < |g| ==> a[y][x] == g[y][x];
    }
  }

  /** The load of a row: each round rock at column x weighs `width - x`. */
  function RowLoad(r: seq<Rock>, width: int): int
  {
    if r == [] then 0
    else RowLoad(r[..|r| - 1], width) + (if r[|r| - 1] == Round then width - (|r| - 1) else 0)
  }

  /** The load of the first rows. */
  function Load(g: seq<seq<Rock>>, width: int): int
  {
    if g == [] then 0 else Load(g[..|g| - 1], width) + RowLoad(g[|g| - 1], width)
  }

  /** On a row no wider than the platform, each round rock adds between 1 and `width`. */
  lemma {:induction false} RowLoadBounds(r: seq<Rock>, width: int)
    requires |r| <= width
    ensures CountOf(r, Round) <= RowLoad(r, width) <= width * CountOf(r, Round)
  {
    if r != [] {
      RowLoadBounds(r[..|r| - 1], width);
    }
  }

  /** The cells holding round rocks. */
  function RoundMask(g: seq<seq<Rock>>): (m: seq<seq<bool>>)
    ensures |m| == |g| && forall y :: 0 <= y < |g| ==> |m[y]| == |g[y]|
  {
    seq(|g|, y requires 0 <= y < |g| => seq(|g[y]|, x requires 0 <= x < |g[y]| => g[y][x] == Round))
  }

  // ---------------------------------------------------------------------------
  // The platform
  // ---------------------------------------------------------------------------

  class Platform {
    var rocks: array2<Rock>

    /** The cells, row by row. */
    ghost function Cells(): (g: seq<seq<Rock>>)
      reads this, rocks
      ensures |g| == rocks.Length0 && forall y :: 0 <= y < |g| ==> |g[y]| == rocks.Length1
    {
      seq(rocks.Length0, y requires 0 <= y < rocks.Length0 reads this, rocks =>
        seq(rocks.Length1, x requires 0 <= y < rocks.Length0 && 0 <= x < rocks.Length1 reads this, rocks => rocks[y, x]))
    }

    /** The platform built from rows of one length. */
    constructor (rows: seq<seq<Rock>>)
      requires forall y :: 0 <= y < |rows| ==> |rows[y]| == |rows[0]|
      ensures fresh(rocks) && Cells() == rows
    {
      var w := if |rows| == 0 then 0 else |rows[0]|;
      rocks := new Rock[|rows|, w]((y, x) requires 0 <= y < |rows| && 0 <= x < w => rows[y][x]);
      new;
      forall y | 0 <= y < |rows| ensures Cells()[y] == rows[y] {
        assert forall x :: 0 <= x < w ==> Cells()[y][x] == rows[y][x];
      }
    }

    /** `transpose` on a square platform: cell (x, y) trades places with cell (y, x). */
    method Transpose()
      requires rocks.Length0 == rocks.Length1
      modifies rocks
      ensures forall y, x :: 0 <= y < rocks.Length0 && 0 <= x < rocks.Length1 ==> rocks[y, x] == old(rocks[x, y])
    {
      var n := rocks.Length1;
      for y := 0 to n
        invariant forall a, b :: 0 <= a < n && 0 <= b < n ==>
          rocks[a, b] == (if a < y && b < y then old(rocks[b, a]) else old(rocks[a, b]))
      {
        for x := 0 to y
          invariant forall a, b :: 0 <= a < n && 0 <= b < n ==>
            rocks[a, b] == (if (a < y && b < y) || (a == y && b < x) || (b == y && a < x) then old(rocks[b, a]) else old(rocks[a, b]))
        {
          rocks[y, x], rocks[x, y] := rocks[x, y], rocks[y, x];
        }
      }
    }

    /** `flip_rows`: each row is reversed. */
    method FlipRows()
      requires rocks.Length0 == rocks.Length1
      modifies rocks
      ensures forall y, x :: 0 <= y < rocks.Length0 && 0 <= x < rocks.Length1 ==> rocks[y, x] == old(rocks[y, rocks.Length1 - 1 - x])
    {
      var n := rocks.Length1;
      for y := 0 to n
        invariant forall a, b :: 0 <= a < n && 0 <= b < n ==>
          rocks[a, b] == (if a < y then old(rocks[a, n - 1 - b]) else old(rocks[a, b]))
      {
        for x := 0 to n / 2
          invariant forall a, b :: 0 <= a < n && 0 <= b < n ==>
            rocks[a, b] == (if a < y || (a == y && (b < x || n - 1 - b < x)) then old(rocks[a, n - 1 - b]) else old(rocks[a, b]))
        {
          var z := n - x - 1;
          rocks[y, x], rocks[y, z] := rocks[y, z], rocks[y, x];
        }
      }
    }

    /** `flip_columns`: the order of the rows is reversed. */
    method FlipColumns()
      requires rocks.Length0 == rocks.Length1
      modifies rocks
      ensures forall y, x :: 0 <= y < rocks.Length0 && 0 <= x < rocks.Length1 ==> rocks[y, x] == old(rocks[rocks.Length0 - 1 - y, x])
    {
      var n := rocks.Length1;
      for x := 0 to n
        invariant forall a, b :: 0 <= a < n && 0 <= b < n ==>
          rocks[a, b] == (if b < x then old(rocks[n - 1 - a, b]) else old(rocks[a, b]))
      {
        for y := 0 to n / 2
          invariant forall a, b :: 0 <= a < n && 0 <= b < n ==>
            rocks[a, b] == (if b < x || (b == x && (a < y || n - 1 - a < y)) then old(rocks[n - 1 - a, b]) else old(rocks[a, b]))
        {
          var z := n - y - 1;
          rocks[y, x], rocks[z, x] := rocks[z, x], rocks[y, x];
        }
      }
    }

    /** `rotate_cw`: transpose, then reverse every row. */
    method RotateCw()
      requires rocks.Length0 == rocks.Length1
      modifies rocks
      ensures Square(old(Cells())) && Cells() == RotatedCw(old(Cells()))
    {
      ghost var g := Cells();
      Transpose();
      FlipRows();
      var t := RotatedCw(g);
      forall y | 0 <= y < |g| ensures Cells()[y] == t[y] {
        assert forall x :: 0 <= x < |g| ==> Cells()[y][x] == t[y][x];
      }
    }

    /** `rotate_ccw`: transpose, then reverse the order of the rows. */
    method RotateCcw()
      requires rocks.Length0 == rocks.Length1
      modifies rocks
      ensures Square(old(Cells())) && Cells() == RotatedCcw(old(Cells()))
    {
      ghost var g := Cells();
      Transpose();
      FlipColumns();
      var t := RotatedCcw(g);
      forall y | 0 <= y < |g| ensures Cells()[y] == t[y] {
        assert forall x :: 0 <= x < |g| ==> Cells()[y][x] == t[y][x];
      }
    }

    /** Row `y` as a sequence. */
    ghost function RowOf(y: int): (r: seq<Rock>)
      requires 0 <= y < rocks.Length0
      reads this, rocks
      ensures |r| == rocks.Length1 && forall x :: 0 <= x < |r| ==> r[x] == rocks[y, x]
    {
      seq(rocks.Length1, x requires 0 <= y < rocks.Length0 && 0 <= x < rocks.Length1 reads this, rocks => rocks[y, x])
    }

    /**
     * `roll_row_down`: one pass over row `row`, with `lastEmpty` the first
     * empty cell of the current run (the row's width when there is none).
     * A round rock is swapped into that cell, a cube starts a new run.
     */
    method RollRowDown(row: int)
      requires 0 <= row < rocks.Length0
      modifies rocks
      ensures RowOf(row) == Rolled(old(RowOf(row)))
      ensures forall y, x :: 0 <= y < rocks.Length0 && y != row && 0 <= x < rocks.Length1 ==> rocks[y, x] == old(rocks[y, x])
    {
      ghost var orig := RowOf(row);
      ghost var cur := orig;
      var w := rocks.Length1;
      var lastEmpty := w;
      var i := 0;
      RollStart(orig);
      while i != w
        invariant 0 <= i <= w && RollState(cur, orig, i, lastEmpty)
        invariant forall x :: 0 <= x < w ==> rocks[row, x] == cur[x]
        invariant forall y, x :: 0 <= y < rocks.Length0 && y != row && 0 <= x < w ==> rocks[y, x] == old(rocks[y, x])
        decreases w - i
      {
        assert cur[i] == cur[i..][0] == orig[i];
        match rocks[row, i] {
        case Round =>
          if lastEmpty != w {
            RollStepRoundFits(cur, orig, i, lastEmpty);
            rocks[row, i], rocks[row, lastEmpty] := rocks[row, lastEmpty], rocks[row, i];
            cur := cur[i := Empty][lastEmpty := Round];
            lastEmpty := lastEmpty + 1;
          } else {
            RollStepRoundFull(cur, orig, i, lastEmpty);
          }
        case Cube =>
          RollStepCube(cur, orig, i, lastEmpty);
          lastEmpty := w;
        case Empty =>
          RollStepEmpty(cur, orig, i, lastEmpty);
          if lastEmpty == w {
            lastEmpty := i;
          }
        }
        i := i + 1;
      }
      assert orig[..w] == orig && cur[..w] == cur;
      assert RowOf(row) == cur;
    }

    /** `tilt`: every row is rolled towards x = 0. */
    method Tilt()
      modifies rocks
      ensures |Cells()| == |old(Cells())|
      ensures forall y :: 0 <= y < |Cells()| ==> Cells()[y] == Rolled(old(Cells())[y])
    {
      ghost var g := Cells();
      for row := 0 to rocks.Length0
        invariant forall y, x :: 0 <= y < row && 0 <= x < rocks.Length1 ==> rocks[y, x] == Rolled(g[y])[x]
        invariant forall y, x :: row <= y < rocks.Length0 && 0 <= x < rocks.Length1 ==> rocks[y, x] == g[y][x]
      {
        assert RowOf(row) == g[row];
        RollRowDown(row);
      }
      forall y | 0 <= y < |g| ensures Cells()[y] == Rolled(g[y]) {
        assert forall x :: 0 <= x < rocks.Length1 ==> Cells()[y][x] == Rolled(g[y])[x];
      }
    }

    /** `calculate_load`: each round rock at column x adds `width - x`, visited row by row. */
    method CalculateLoad() returns (load: int)
      ensures load == Load(Cells(), rocks.Length1)
    {
      load := 0;
      var w := rocks.Length1;
      ghost var g := Cells();
      for y := 0 to rocks.Length0
        invariant load == Load(g[..y], w)
      {
        ghost var r := g[y];
        var rowLoad := 0;
        for x := 0 to w
          invariant rowLoad == RowLoad(r[..x], w)
        {
          assert r[..x + 1][..x] == r[..x];
          if rocks[y, x] == Round {
            rowLoad := rowLoad + (w - x);
          }
        }
        assert r[..w] == r;
        assert g[..y + 1][..y] == g[..y];
        load := load + rowLoad;
      }
      assert g[..rocks.Length0] == g;
    }

    /** `round_rocks`: one flag per cell, row by row, set exactly at the round rocks. */
    method RoundRocks() returns (round: seq<bool>)
      ensures round == Grids.Flatten(RoundMask(Cells()))
    {
      ghost var mask := RoundMask(Cells());
      round := [];
      for y := 0 to rocks.Length0
        invariant round == Grids.Flatten(mask[..y])
      {
        var row: seq<bool> := [];
        for x := 0 to rocks.Length1
          invariant row == mask[y][..x]
        {
          row := row + [rocks[y, x] == Round];
        }
        assert mask[..y + 1][..y] == mask[..y];
        round := round + row;
      }
      assert mask[..rocks.Length0] == mask;
    }
  }

  /** The flag of cell (x, y) sits at index `y * width + x`, and it is set exactly at a round rock. */
  lemma RoundRocksAt(g: seq<seq<Rock>>, width: nat, y: nat, x: nat)
    requires forall r :: 0 <= r < |g| ==> |g[r]| == width
    requires y < |g| && x < width
    ensures var f := Grids.Flatten(RoundMask(g));
      0 <= y * width + x < |f| && (f[y * width + x] <==> g[y][x] == Round)
  {
    Grids.FlattenAt(RoundMask(g), width, y, x);
  }

  /** A row with a cube in the middle: each side gathers its own round rocks. */
  lemma ExampleRow()
    ensures Rolled([Round, Empty, Round, Cube, Empty, Round]) == [Round, Round, Empty, Cube, Round, Empty]
  {
    var r := [Round, Empty, Round, Cube, Empty, Round];
    var left, right := [Round, Empty, Round], [Empty, Round];
    assert r[..5][..4] == r[..4] && r[..4][..3] == left && r[..5] == r[..4] + [Empty];
    assert Start(r) == 4;
    assert r[..3] == left && r[4..] == right;
    assert left[..2] == [Round, Empty] && left[..2][..1] == [Round] && [Round][..0] == [];
    assert Start(left) == 0;
    assert CountOf(left, Round) == 2;
    assert right[..1] == [Empty] && [Empty][..0] == [];
    assert CountOf(right, Round) == 1;
    assert Gather(left) == [Round, Round, Empty];
    assert Gather(right) == [Round, Empty];
  }
}
