/**
 * 2024 day 14 (2024/src/day14.hpp): restroom redoubt. Robots walk with
 * constant velocity on a torus of `bounds.x` by `bounds.y` tiles; a grid
 * of per-tile robot counts is kept in step with their positions, and the
 * safety factor multiplies the robot counts of the four quadrants.
 */
module Y2024Day14 {
  import opened AocLib
  import opened Arith

  /** A robot, with the flat index of the tile it stands on. */
  datatype Robot = Robot(pos: Pos, vel: Delta, gridIndex: int)

  predicate InBounds(p: Pos, bounds: Pos)
  {
    0 <= p.x < bounds.x && 0 <= p.y < bounds.y
  }

  /** One step of a coordinate, wrapped back onto [0, bound) by one add or subtract. */
  function Wrap(v: int, bound: int): int
  {
    if v < 0 then v + bound else if v >= bound then v - bound else v
  }

  /** `Robot::update`: add the velocity, then wrap each coordinate once. */
  function Moved(r: Robot, bounds: Pos): Pos
  {
    var p := PosAdd(r.pos, r.vel);
    Pos(Wrap(p.x, bounds.x), Wrap(p.y, bounds.y))
  }

  /** The velocity is smaller than the room in both directions. */
  predicate Slow(r: Robot, bounds: Pos)
  {
    Abs(r.vel.dx) < bounds.x && Abs(r.vel.dy) < bounds.y
  }

  /** The flat index of a tile in the count grid, row by row (`Grid::get_index`). */
  function CellIndex(p: Pos, bounds: Pos): int
  {
    p.y * bounds.x + p.x
  }

  /** A robot on the room's floor, slow enough to wrap once, with its tile index up to date. */
  predicate WellPlaced(r: Robot, bounds: Pos)
  {
    InBounds(r.pos, bounds) && Slow(r, bounds) && r.gridIndex == CellIndex(r.pos, bounds)
  }

  /** A robot one second on, with its tile index recomputed (the body of `Robots::update`). */
  function Step(r: Robot, bounds: Pos): Robot
  {
    var p := Moved(r, bounds);
    Robot(p, r.vel, CellIndex(p, bounds))
  }

  /** The number of robots whose tile index is c. */
  function CountAt(rs: seq<Robot>, c: int): nat
  {
    if rs == [] then 0 else CountAt(rs[..|rs| - 1], c) + (if rs[|rs| - 1].gridIndex == c then 1 else 0)
  }

  /** The count grid holds, for every tile, the number of robots on it. */
  predicate CountsMatch(rs: seq<Robot>, counts: seq<int>)
  {
    forall c :: 0 <= c < |counts| ==> counts[c] == CountAt(rs, c)
  }

  /**
   * The quadrant of a tile: -1 on the middle row or column, otherwise bit
   * 0 set right of the middle and bit 1 set below it.
   */
  function Quadrant(p: Pos, bounds: Pos): int
  {
    if p.x == bounds.x / 2 || p.y == bounds.y / 2 then -1
    else (if p.x > bounds.x / 2 then 1 else 0) + (if p.y > bounds.y / 2 then 2 else 0)
  }

  /** The number of robots in quadrant q (-1 counting those on the middle lines). */
  function QuadrantCount(rs: seq<Robot>, bounds: Pos, q: int): nat
  {
    if rs == [] then 0
    else QuadrantCount(rs[..|rs| - 1], bounds, q) + (if Quadrant(rs[|rs| - 1].pos, bounds) == q then 1 else 0)
  }

  /** The product of the four quadrant counts. */
  function SafetyOf(rs: seq<Robot>, bounds: Pos): int
  {
    QuadrantCount(rs, bounds, 0) * QuadrantCount(rs, bounds, 1) * QuadrantCount(rs, bounds, 2) * QuadrantCount(rs, bounds, 3)
  }

  class Robots {
    var robots: seq<Robot>
    const bounds: Pos
    /** The data of `robot_counts`, one entry per tile, row by row. */
    var robotCounts: seq<int>

    ghost predicate Valid()
      reads this
    {
      bounds.x > 0 && bounds.y > 0 && |robotCounts| == bounds.y * bounds.x &&
      (forall k :: 0 <= k < |robots| ==> WellPlaced(robots[k], bounds)) &&
      CountsMatch(robots, robotCounts)
    }

    /**
     * `Robots::read`: every robot read is counted on its tile and stored
     * with that tile's index. The robots are given as the position and
     * velocity pairs the parser yields; they must stand inside the room and
     * move slower than its size, as every robot of the puzzle does.
     */
    constructor Read(bounds: Pos, parsed: seq<(Pos, Delta)>)
      requires bounds.x > 0 && bounds.y > 0
      requires forall k :: 0 <= k < |parsed| ==>
        InBounds(parsed[k].0, bounds) && Abs(parsed[k].1.dx) < bounds.x && Abs(parsed[k].1.dy) < bounds.y
      ensures Valid() && this.bounds == bounds
      ensures |robots| == |parsed|
      ensures forall k :: 0 <= k < |parsed| ==> robots[k].pos == parsed[k].0 && robots[k].vel == parsed[k].1
    {
      this.bounds := bounds;
      var rs: seq<Robot> := [];
      var counts := seq(bounds.y * bounds.x, _ => 0);
      for i := 0 to |parsed|
        invariant |rs| == i && |counts| == bounds.y * bounds.x
        invariant forall k :: 0 <= k < i ==> WellPlaced(rs[k], bounds) && rs[k].pos == parsed[k].0 && rs[k].vel == parsed[k].1
        invariant CountsMatch(rs, counts)
      {
        var (pos, vel) := parsed[i];
        var r := Robot(pos, vel, CellIndex(pos, bounds));
        RowBound(pos.y, bounds.y, bounds.x, pos.x);
        CountsAfterAdd(rs, counts, r);
        counts := counts[r.gridIndex := counts[r.gridIndex] + 1];
        rs := rs + [r];
      }
      robots := rs;
      robotCounts := counts;
    }

    /**
     * `Robots::update`: each robot in turn leaves its tile's count, moves
     * one second on, and joins the count of its new tile.
     */
    method Update()
      requires Valid()
      modifies this
      ensures Valid()
      ensures |robots| == |old(robots)|
      ensures forall k :: 0 <= k < |robots| ==> robots[k] == Step(old(robots)[k], bounds)
    {
      ghost var start := robots;
      for i := 0 to |robots|
        invariant Valid() && |robots| == |start|
        invariant forall k :: 0 <= k < i ==> robots[k] == Step(start[k], bounds)
        invariant forall k :: i <= k < |robots| ==> robots[k] == start[k]
      {
        var r := robots[i];
        var next := Step(r, bounds);
        StepWellPlaced(r, bounds);
        RowBound(r.pos.y, bounds.y, bounds.x, r.pos.x);
        RowBound(next.pos.y, bounds.y, bounds.x, next.pos.x);
        CountsAfterMove(robots, robotCounts, i, next);
        robotCounts := robotCounts[r.gridIndex := robotCounts[r.gridIndex] - 1];
        robotCounts := robotCounts[next.gridIndex := robotCounts[next.gridIndex] + 1];
        robots := robots[i := next];
      }
    }

    /**
     * `Robots::safety_factor`: robots on the middle row or column are
     * skipped, every other robot counts for its quadrant, and the four
     * counts are multiplied.
     */
    method SafetyFactor() returns (factor: int)
      ensures factor == SafetyOf(robots, bounds)
    {
      var quadrants := new int[4](_ => 0);
      for i := 0 to |robots|
        invariant forall q :: 0 <= q < 4 ==> quadrants[q] == QuadrantCount(robots[..i], bounds, q)
      {
        assert robots[..i + 1][..i] == robots[..i];
        var robot := robots[i];
        if robot.pos.x == bounds.x / 2 || robot.pos.y == bounds.y / 2 {
          continue;
        }
        var quadIdx := 0;
        if robot.pos.x > bounds.x / 2 {
          quadIdx := quadIdx + 1;
        }
        if robot.pos.y > bounds.y / 2 {
          quadIdx := quadIdx + 2;
        }
        quadrants[quadIdx] := quadrants[quadIdx] + 1;
      }
      assert robots[..|robots|] == robots;
      factor := quadrants[0] * quadrants[1] * quadrants[2] * quadrants[3];
    }
  }

  /** A wrapped coordinate of a slow robot is its sum reduced modulo the bound. */
  lemma WrapIsModulo(v: int, d: int, bound: int)
    requires 0 <= v < bound && Abs(d) < bound
    ensures Wrap(v + d, bound) == (v + d) % bound
    ensures 0 <= Wrap(v + d, bound) < bound
  {
    var s := v + d;
    if s < 0 {
      DivModUnique(s, bound, -1, s + bound);
    } else if s >= bound {
      DivModUnique(s, bound, 1, s - bound);
    } else {
      DivModUnique(s, bound, 0, s);
    }
  }

  /**
   * `Robot::update` keeps a slow robot inside the room, at its position
   * plus its velocity taken modulo the room's size.
   */
  lemma MovedIsModular(r: Robot, bounds: Pos)
    requires InBounds(r.pos, bounds) && Slow(r, bounds)
    ensures InBounds(Moved(r, bounds), bounds)
    ensures Moved(r, bounds) == Pos((r.pos.x + r.vel.dx) % bounds.x, (r.pos.y + r.vel.dy) % bounds.y)
  {
    WrapIsModulo(r.pos.x, r.vel.dx, bounds.x);
    WrapIsModulo(r.pos.y, r.vel.dy, bounds.y);
  }

  lemma StepWellPlaced(r: Robot, bounds: Pos)
    requires WellPlaced(r, bounds)
    ensures WellPlaced(Step(r, bounds), bounds)
  {
    MovedIsModular(r, bounds);
  }

  /** Replacing one robot moves one unit of count from its old tile to its new one. */
  lemma {:induction false} CountAtReplace(rs: seq<Robot>, i: nat, r: Robot, c: int)
    requires i < |rs|
    ensures CountAt(rs[i := r], c) + (if rs[i].gridIndex == c then 1 else 0)
      == CountAt(rs, c) + (if r.gridIndex == c then 1 else 0)
  {
    var n := |rs| - 1;
    if i < n {
      assert rs[i := r][..n] == rs[..n][i := r];
      CountAtReplace(rs[..n], i, r, c);
    } else {
      assert rs[i := r][..n] == rs[..n];
    }
  }

  lemma CountsAfterMove(rs: seq<Robot>, counts: seq<int>, i: nat, r: Robot)
    requires i < |rs| && CountsMatch(rs, counts)
    requires 0 <= rs[i].gridIndex < |counts| && 0 <= r.gridIndex < |counts|
    ensures var a, b := rs[i].gridIndex, r.gridIndex;
      var dec := counts[a := counts[a] - 1];
      CountsMatch(rs[i := r], dec[b := dec[b] + 1])
  {
    forall c | 0 <= c < |counts| ensures CountAt(rs[i := r], c) + (if rs[i].gridIndex == c then 1 else 0)
        == CountAt(rs, c) + (if r.gridIndex == c then 1 else 0) {
      CountAtReplace(rs, i, r, c);
    }
  }

  lemma CountsAfterAdd(rs: seq<Robot>, counts: seq<int>, r: Robot)
    requires CountsMatch(rs, counts) && 0 <= r.gridIndex < |counts|
    ensures CountsMatch(rs + [r], counts[r.gridIndex := counts[r.gridIndex] + 1])
  {
    assert (rs + [r])[..|rs|] == rs;
  }

  /** Every robot is on a middle line or in exactly one of the four quadrants. */
  lemma {:induction false} QuadrantsPartition(rs: seq<Robot>, bounds: Pos)
    ensures QuadrantCount(rs, bounds, -1) + QuadrantCount(rs, bounds, 0) + QuadrantCount(rs, bounds, 1)
      + QuadrantCount(rs, bounds, 2) + QuadrantCount(rs, bounds, 3) == |rs|
  {
    if rs != [] {
      QuadrantsPartition(rs[..|rs| - 1], bounds);
    }
  }

  /** The quadrants are the four corners: left or right of the middle column, above or below the middle row. */
  lemma QuadrantCorners(p: Pos, bounds: Pos)
    requires p.x != bounds.x / 2 && p.y != bounds.y / 2
    ensures 0 <= Quadrant(p, bounds) < 4
    ensures Quadrant(p, bounds) % 2 == 1 <==> p.x > bounds.x / 2
    ensures Quadrant(p, bounds) >= 2 <==> p.y > bounds.y / 2
  {
  }

  /** From the worked example: a robot at (2, 4) with velocity (2, -3) in an 11 by 7 room is at (4, 1) after one second. */
  lemma Example()
    ensures Moved(Robot(Pos(2, 4), Delta(2, -3), 0), Pos(11, 7)) == Pos(4, 1)
    ensures Moved(Robot(Pos(4, 1), Delta(2, -3), 0), Pos(11, 7)) == Pos(6, 5)
  {
  }
}
