/**
 * 2024 day 25 (2024/src/day25.hpp): lock and key schematics. A schematic
 * is five columns of pin heights; a key fits a lock when no column
 * overlaps, that is when every pair of heights sums to at most 5.
 */
module Y2024Day25 {
  import opened AocLib

  /** The number of columns of a schematic. */
  const Columns := 5

  datatype Schematic = Schematic(isKey: bool, pins: seq<int>)

  predicate WellFormed(s: Schematic)
  {
    |s.pins| == Columns
  }

  /** A key and a lock fit when, column by column, their pins leave room for each other. */
  predicate Fits(s: Schematic, other: Schematic)
    requires WellFormed(s) && WellFormed(other)
  {
    s.isKey != other.isKey && forall i :: 0 <= i < Columns ==> s.pins[i] + other.pins[i] <= 5
  }

  /**
   * `check_fit`: two keys or two locks never fit; a key asks the lock, and
   * the lock compares column by column.
   */
  method CheckFit(s: Schematic, other: Schematic) returns (fit: bool)
    requires WellFormed(s) && WellFormed(other)
    ensures fit == Fits(s, other)
    ensures fit == Fits(other, s)
    decreases if s.isKey then 1 else 0
  {
    if s.isKey == other.isKey {
      return false;
    }
    if s.isKey {
      fit := CheckFit(other, s);
      return;
    }
    for i := 0 to Columns
      invariant forall k :: 0 <= k < i ==> s.pins[k] + other.pins[k] <= 5
    {
      if s.pins[i] + other.pins[i] > 5 {
        return false;
      }
    }
    return true;
  }

  /** The number of rows among `rows` with '#' in column j. */
  function HashCount(rows: seq<string>, j: nat): nat
    requires forall r :: 0 <= r < |rows| ==> |rows[r]| > j
  {
    if rows == [] then 0 else HashCount(rows[..|rows| - 1], j) + (if rows[|rows| - 1][j] == '#' then 1 else 0)
  }

  lemma {:induction false} HashCountBound(rows: seq<string>, j: nat)
    requires forall r :: 0 <= r < |rows| ==> |rows[r]| > j
    ensures HashCount(rows, j) <= |rows|
  {
    if rows != [] {
      HashCountBound(rows[..|rows| - 1], j);
    }
  }

  /**
   * The reading of one schematic (`operator>>`), given the first line after
   * any leading whitespace and the lines that follow it. The top line tells
   * a key ('.' in its first place) from a lock; each pin counts the '#' in
   * its column over the next five lines; one more line, the closing row, is
   * then read. The schematic is stored only when every one of those reads
   * succeeded, so input that ends early gives nothing.
   */
  method ReadSchematic(top: string, rest: seq<string>) returns (s: Option<Schematic>)
    requires |top| >= 1
    requires forall r :: 0 <= r < |rest| && r < 5 ==> |rest[r]| >= Columns
    ensures s.Some? <==> |rest| >= 6
    ensures s.Some? ==> WellFormed(s.value) && (s.value.isKey <==> top[0] == '.')
    ensures s.Some? ==> forall j :: 0 <= j < Columns ==> s.value.pins[j] == HashCount(rest[..5], j)
    ensures s.Some? ==> forall j :: 0 <= j < Columns ==> 0 <= s.value.pins[j] <= 5
  {
    var pins := [0, 0, 0, 0, 0];
    var read := 0;
    while read < 5 && read < |rest|
      invariant read <= 5 && read <= |rest|
      invariant |pins| == Columns
      invariant forall j :: 0 <= j < Columns ==> pins[j] == HashCount(rest[..read], j)
    {
      assert rest[..read + 1][..read] == rest[..read];
      for j := 0 to Columns
        invariant |pins| == Columns
        invariant forall k :: 0 <= k < j ==> pins[k] == HashCount(rest[..read + 1], k)
        invariant forall k :: j <= k < Columns ==> pins[k] == HashCount(rest[..read], k)
      {
        pins := pins[j := pins[j] + (if rest[read][j] == '#' then 1 else 0)];
      }
      read := read + 1;
    }
    // The closing row succeeds only if all five pin rows did and one more line is left.
    if read == 5 && |rest| > 5 {
      forall j | 0 <= j < Columns
        ensures 0 <= pins[j] <= 5
      {
        ReadPinsBounded(rest[..5], j);
      }
      s := Some(Schematic(top[0] == '.', pins));
    } else {
      s := None;
    }
  }

  /** A key cut off after two pin rows is not read at all; with all five rows and the closing row it is. */
  method TruncatedGivesNothing() returns (cut: Option<Schematic>, whole: Option<Schematic>)
    ensures cut == None
    ensures whole == Some(Schematic(true, [2, 1, 2, 1, 1]))
  {
    var rows := [".....", ".....", ".....", "#.#..", "#####"];
    cut := ReadSchematic(".....", rows[..2]);
    whole := ReadSchematic(".....", rows + ["#####"]);
    assert (rows + ["#####"])[..5] == rows;
    assert rows[..5] == rows;
    forall j | 0 <= j < Columns
      ensures HashCount(rows, j) == [2, 1, 2, 1, 1][j] == whole.value.pins[j]
    {
      assert HashCount(rows[..0], j) == 0;
      assert rows[..1][..0] == rows[..0] && rows[..2][..1] == rows[..1];
      assert rows[..3][..2] == rows[..2] && rows[..4][..3] == rows[..3] && rows[..5][..4] == rows[..4];
      assert HashCount(rows[..1], j) == 0;
      assert HashCount(rows[..2], j) == 0;
      assert HashCount(rows[..3], j) == 0;
      assert HashCount(rows[..4], j) == (if j == 0 || j == 2 then 1 else 0);
    }
    assert whole.value.pins == [2, 1, 2, 1, 1];
  }

  /** Pins read from five rows are heights from 0 to 5. */
  lemma ReadPinsBounded(rows: seq<string>, j: nat)
    requires |rows| == 5 && j < Columns
    requires forall r :: 0 <= r < |rows| ==> |rows[r]| >= Columns
    ensures 0 <= HashCount(rows, j) <= 5
  {
    HashCountBound(rows, j);
  }

  /** The worked example: lock 0,5,3,4,3 does not fit key 5,0,2,1,3, but lock 0,5,3,4,3 fits key 3,0,2,0,1. */
  lemma Example()
    ensures !Fits(Schematic(false, [0, 5, 3, 4, 3]), Schematic(true, [5, 0, 2, 1, 3]))
    ensures Fits(Schematic(false, [0, 5, 3, 4, 3]), Schematic(true, [3, 0, 2, 0, 1]))
  {
    var lock := Schematic(false, [0, 5, 3, 4, 3]);
    assert lock.pins[4] + [5, 0, 2, 1, 3][4] > 5;
  }
}
