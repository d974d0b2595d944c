/**
 * 2023 day 10 (2023/src/day10.hpp): the pipe tiles of a field and the
 * heading a traveller leaves a tile with, given the heading it entered on.
 */
module Y2023Day10 {
  import opened AocLib

  /** The tiles: '.', '|', '-', 'L', 'J', '7', 'F' and the start 'S'. */
  datatype Pipe = Ground | StraightVert | StraightHorz | BendNE | BendNW | BendSW | BendSE | Start

  /**
   * `get_out_dir`: entering a tile while heading `inDir`, the heading on
   * leaving it, or None when the tile does not accept that heading.
   */
  function GetOutDir(pipe: Pipe, inDir: AbsDirection): Option<AbsDirection>
  {
    match pipe
    case StraightVert => if inDir == North || inDir == South then Some(inDir) else None
    case StraightHorz => if inDir == West || inDir == East then Some(inDir) else None
    case BendNE => if inDir == South then Some(East) else if inDir == West then Some(North) else None
    case BendNW => if inDir == South then Some(West) else if inDir == East then Some(North) else None
    case BendSW => if inDir == North then Some(West) else if inDir == East then Some(South) else None
    case BendSE => if inDir == North then Some(East) else if inDir == West then Some(South) else None
    case Start => Some(inDir)
    case Ground => None
  }

  /** The two sides of a pipe tile that connect to its neighbours, named after the tile. */
  function Openings(pipe: Pipe): set<AbsDirection>
  {
    match pipe
    case StraightVert => {North, South}
    case StraightHorz => {East, West}
    case BendNE => {North, East}
    case BendNW => {North, West}
    case BendSW => {South, West}
    case BendSE => {South, East}
    case Start => {}
    case Ground => {}
  }

  lemma OppositeValues()
    ensures Opposite(North) == South && Opposite(South) == North
    ensures Opposite(East) == West && Opposite(West) == East
  {
  }

  /**
   * On a pipe, a traveller gets through exactly when it comes in through
   * one opening, and then it leaves through the other one.
   */
  lemma OutDirMatchesOpenings(pipe: Pipe, inDir: AbsDirection)
    requires pipe != Start && pipe != Ground
    ensures GetOutDir(pipe, inDir).Some? <==> Opposite(inDir) in Openings(pipe)
    ensures GetOutDir(pipe, inDir).Some? ==>
      GetOutDir(pipe, inDir).value in Openings(pipe) && GetOutDir(pipe, inDir).value != Opposite(inDir)
  {
    OppositeValues();
  }

  /** Straight pipes pass a traveller through unturned, and only along their own axis. */
  lemma StraightPassThrough(inDir: AbsDirection)
    ensures GetOutDir(StraightVert, inDir) == (if inDir in {North, South} then Some(inDir) else None)
    ensures GetOutDir(StraightHorz, inDir) == (if inDir in {East, West} then Some(inDir) else None)
  {
  }

  /** Each bend accepts exactly two headings. */
  lemma BendAcceptsTwo(pipe: Pipe)
    requires pipe in {BendNE, BendNW, BendSW, BendSE}
    ensures |set d | d in {North, East, South, West} && GetOutDir(pipe, d).Some?| == 2
  {
    var accepted := set d | d in {North, East, South, West} && GetOutDir(pipe, d).Some?;
    match pipe
    case BendNE => assert accepted == {South, West};
    case BendNW => assert accepted == {South, East};
    case BendSW => assert accepted == {North, East};
    case BendSE => assert accepted == {North, West};
  }

  /** The start tile lets any heading through; ground lets none. */
  lemma StartAndGround(inDir: AbsDirection)
    ensures GetOutDir(Start, inDir) == Some(inDir)
    ensures GetOutDir(Ground, inDir) == None
  {
  }

  /** No tile sends a traveller back the way it came. */
  lemma NeverReverses(pipe: Pipe, inDir: AbsDirection)
    ensures GetOutDir(pipe, inDir) != Some(Opposite(inDir))
  {
    OppositeValues();
  }

  /** Pipes work both ways: walking back out of the exit leads back out of the entrance. */
  lemma Reversible(pipe: Pipe, inDir: AbsDirection)
    requires GetOutDir(pipe, inDir).Some?
    ensures GetOutDir(pipe, Opposite(GetOutDir(pipe, inDir).value)) == Some(Opposite(inDir))
  {
    OppositeValues();
  }
}
