/**
 * The shared 2-D grid: a width x height array of cells stored row by row in
 * one flat buffer, with the index arithmetic between (x, y) positions and
 * flat indices, bounds checks, row-major traversal and the two neighbourhood
 * kernels (Chebyshev and Manhattan balls around a centre).
 *
 * The C++ callbacks of for_each and the kernels are modelled by returning the
 * sequence of cells the callback would be called on, in call order.
 */
module Grids {
  import opened AocLib
  import opened Arith

  /** A cell position in row-major order comes before another. */
  predicate RowMajorBefore(p: Pos, q: Pos)
  {
    p.y < q.y || (p.y == q.y && p.x < q.x)
  }

  /** The positions are visited in strictly increasing row-major order (so none twice). */
  predicate StrictlyRowMajor(ps: seq<Pos>)
  {
    forall i, j :: 0 <= i < j < |ps| ==> RowMajorBefore(ps[i], ps[j])
  }

  class Grid<T> {
    const width: int
    const height: int
    var data: seq<T>

    ghost predicate Valid()
      reads this
    {
      0 <= width && 0 <= height && |data| == height * width
    }

    /** Grid(width, height, value): every one of the width*height cells holds value. */
    constructor Fill(w: int, h: int, value: T)
      requires 0 <= w && 0 <= h
      ensures Valid()
      ensures width == w && height == h
      ensures |data| == w * h && forall i :: 0 <= i < |data| ==> data[i] == value
    {
      width := w;
      height := h;
      data := seq(w * h, _ => value);
    }

    /**
     * Grid(nested rows): height is the number of rows, width the length of
     * the first; every row must have that length.
     */
    constructor FromRows(rows: seq<seq<T>>)
      requires |rows| > 0
      requires forall r :: 0 <= r < |rows| ==> |rows[r]| == |rows[0]|
      ensures Valid()
      ensures height == |rows| && width == |rows[0]|
      ensures data == Flatten(rows)
    {
      height := |rows|;
      width := |rows[0]|;
      var flat: seq<T> := [];
      var r := 0;
      while r < |rows|
        invariant 0 <= r <= |rows|
        invariant flat == Flatten(rows[..r])
      {
        assert rows[..r + 1][..r] == rows[..r];
        flat := flat + rows[r];
        r := r + 1;
      }
      assert rows[..|rows|] == rows;
      FlattenLength(rows, |rows[0]|);
      data := flat;
    }

    /** Grid(other, value): a grid of other's shape, every cell value. */
    constructor Like<U>(other: Grid<U>, value: T)
      requires other.Valid()
      ensures Valid()
      ensures width == other.width && height == other.height
      ensures forall i :: 0 <= i < |data| ==> data[i] == value
    {
      width := other.width;
      height := other.height;
      data := seq(other.width * other.height, _ => value);
    }

    /** get_index: the flat offset y*width + x. */
    function GetIndex(x: int, y: int): int
      reads this
    {
      y * width + x
    }

    /** index_to_pos: the column is the index modulo width, the row the quotient. */
    function IndexToPos(index: nat): Pos
      reads this
      requires width > 0
    {
      Pos(index % width, index / width)
    }

    /** in_bounds: 0 <= x < width and 0 <= y < height. */
    predicate InBounds(p: Pos)
      reads this
    {
      p.y >= 0 && p.x >= 0 && p.y < height && p.x < width
    }

    /**
     * at(x, y): the range-checked access checks only the flat index, so it
     * fails exactly when y*width + x falls outside the buffer.
     */
    function At(x: int, y: int): (r: Option<T>)
      reads this
      requires Valid()
      ensures r.Some? <==> 0 <= y * width + x < height * width
      ensures r.Some? ==> r.value == data[y * width + x]
    {
      var i := GetIndex(x, y);
      if 0 <= i < |data| then Some(data[i]) else None
    }

    /** operator[] as an lvalue: overwrite one cell. */
    method Set(p: Pos, value: T)
      requires Valid() && InBounds(p)
      modifies this
      ensures Valid()
      ensures |data| == |old(data)|
      ensures forall i :: 0 <= i < |data| ==> data[i] == if i == GetIndex(p.x, p.y) then value else old(data)[i]
    {
      RowBound(p.y, height, width, p.x);
      data := data[GetIndex(p.x, p.y) := value];
    }

    /**
     * for_each: the callback sees every cell exactly once, in row-major
     * order, together with its position.
     */
    method ForEach() returns (visits: seq<(T, Pos)>)
      requires Valid()
      ensures |visits| == |data|
      ensures forall i :: 0 <= i < |visits| ==> visits[i].0 == data[i] && InBounds(visits[i].1)
      ensures width > 0 ==> forall i :: 0 <= i < |visits| ==> visits[i].1 == IndexToPos(i)
    {
      visits := [];
      var y := 0;
      while y < height
        invariant 0 <= y <= height
        invariant |visits| == y * width <= |data|
        invariant forall i :: 0 <= i < |visits| ==> visits[i].0 == data[i] && InBounds(visits[i].1)
        invariant width > 0 ==> forall i :: 0 <= i < |visits| ==> visits[i].1 == IndexToPos(i)
      {
        var x := 0;
        MulMono(y + 1, height, width);
        assert (y + 1) * width == y * width + width;
        while x < width
          invariant 0 <= x <= width
          invariant |visits| == y * width + x <= |data|
          invariant forall i :: 0 <= i < |visits| ==> visits[i].0 == data[i] && InBounds(visits[i].1)
          invariant width > 0 ==> forall i :: 0 <= i < |visits| ==> visits[i].1 == IndexToPos(i)
        {
          var i := |visits|;
          RowBound(y, height, width, x);
          DivModUnique(i, width, y, x);
          assert IndexToPos(i) == Pos(x, y);
          visits := visits + [(data[i], Pos(x, y))];
          x := x + 1;
        }
        y := y + 1;
      }
    }

    /**
     * chebyshev_kernel: visits every in-bounds cell whose Chebyshev distance
     * from center is at most distance, each once, row by row.
     */
    method ChebyshevKernel(center: Pos, distance: int) returns (visited: seq<Pos>)
      ensures forall p :: p in visited <==> InBounds(p) && ChebyshevDistance(PosDiff(p, center)) <= distance
      ensures StrictlyRowMajor(visited)
    {
      visited := [];
      var y := center.y - distance;
      while y <= center.y + distance
        invariant distance >= 0 ==> center.y - distance <= y <= center.y + distance + 1
        invariant forall p :: p in visited <==>
          InBounds(p) && ChebyshevDistance(PosDiff(p, center)) <= distance && p.y < y
        invariant forall p :: p in visited ==> p.y < y
        invariant StrictlyRowMajor(visited)
      {
        var x := center.x - distance;
        while x <= center.x + distance
          invariant center.x - distance <= x <= center.x + distance + 1
          invariant forall p :: p in visited <==>
            InBounds(p) && ChebyshevDistance(PosDiff(p, center)) <= distance
            && (p.y < y || (p.y == y && p.x < x))
          invariant forall p :: p in visited ==> RowMajorBefore(p, Pos(x, y))
          invariant StrictlyRowMajor(visited)
        {
          var p := Pos(x, y);
          if InBounds(p) {
            visited := visited + [p];
          }
          x := x + 1;
        }
        y := y + 1;
      }
    }

    /**
     * manhattan_kernel: visits every in-bounds cell whose Manhattan distance
     * from center is at most distance, each once, row by row.
     */
    method ManhattanKernel(center: Pos, distance: int) returns (visited: seq<Pos>)
      ensures forall p :: p in visited <==> InBounds(p) && ManhattanDistance(PosDiff(p, center)) <= distance
      ensures StrictlyRowMajor(visited)
    {
      visited := [];
      var dy := -distance;
      while dy <= distance
        invariant distance >= 0 ==> -distance <= dy <= distance + 1
        invariant forall p :: p in visited <==>
          InBounds(p) && ManhattanDistance(PosDiff(p, center)) <= distance && p.y < center.y + dy
        invariant forall p :: p in visited ==> p.y < center.y + dy
        invariant StrictlyRowMajor(visited)
      {
        var xMax := distance - Abs(dy);
        var dx := -xMax;
        while dx <= xMax
          invariant -xMax <= dx <= xMax + 1
          invariant forall p :: p in visited <==>
            InBounds(p) && ManhattanDistance(PosDiff(p, center)) <= distance
            && (p.y < center.y + dy || (p.y == center.y + dy && p.x < center.x + dx))
          invariant forall p :: p in visited ==> RowMajorBefore(p, Pos(center.x + dx, center.y + dy))
          invariant StrictlyRowMajor(visited)
        {
          var p := PosAdd(center, Delta(dx, dy));
          if InBounds(p) {
            visited := visited + [p];
          }
          dx := dx + 1;
        }
        dy := dy + 1;
      }
    }
  }

  /** Concatenation of the rows, first row first. */
  function Flatten<T>(rows: seq<seq<T>>): seq<T>
  {
    if rows == [] then [] else Flatten(rows[..|rows| - 1]) + rows[|rows| - 1]
  }

  lemma {:induction false} FlattenLength<T>(rows: seq<seq<T>>, w: nat)
    requires forall r :: 0 <= r < |rows| ==> |rows[r]| == w
    ensures |Flatten(rows)| == |rows| * w
  {
    if rows != [] {
      FlattenLength(rows[..|rows| - 1], w);
      assert |rows| * w == (|rows| - 1) * w + w;
    }
  }

  /** Cell (x, y) of the flattened rows is element x of row y. */
  lemma {:induction false} FlattenAt<T>(rows: seq<seq<T>>, w: nat, y: nat, x: nat)
    requires forall r :: 0 <= r < |rows| ==> |rows[r]| == w
    requires y < |rows| && x < w
    ensures 0 <= y * w + x < |Flatten(rows)| && Flatten(rows)[y * w + x] == rows[y][x]
  {
    var n := |rows| - 1;
    FlattenLength(rows[..n], w);
    FlattenLength(rows, w);
    RowBound(y, |rows|, w, x);
    if y < n {
      FlattenAt(rows[..n], w, y, x);
      RowBound(y, n, w, x);
    } else {
      assert Flatten(rows) == Flatten(rows[..n]) + rows[n];
    }
  }

  /** get_index then index_to_pos gives back an in-bounds cell. */
  lemma PosIndexRoundTrip(g: Grid, x: int, y: int)
    requires g.Valid() && g.width > 0 && g.InBounds(Pos(x, y))
    ensures 0 <= g.GetIndex(x, y) < |g.data| && g.IndexToPos(g.GetIndex(x, y)) == Pos(x, y)
  {
    RowBound(y, g.height, g.width, x);
    DivModUnique(y * g.width + x, g.width, y, x);
  }

  /** index_to_pos then get_index gives back the index, and buffer indices map to in-bounds cells. */
  lemma IndexPosRoundTrip(g: Grid, index: nat)
    requires g.Valid() && g.width > 0
    ensures g.GetIndex(g.IndexToPos(index).x, g.IndexToPos(index).y) == index
    ensures index < |g.data| ==> g.InBounds(g.IndexToPos(index))
  {
    var q, r := index / g.width, index % g.width;
    assert q * g.width + r == index;
    if index < |g.data| {
      QuotientBound(index, g.width, g.height);
    }
  }

  /** Within the grid, the checked access at succeeds exactly on in-bounds cells when x is a valid column. */
  lemma AtInBounds(g: Grid, x: int, y: int)
    requires g.Valid()
    requires 0 <= x < g.width
    ensures g.At(x, y).Some? <==> g.InBounds(Pos(x, y))
  {
    if 0 <= y < g.height {
      RowBound(y, g.height, g.width, x);
    } else if y < 0 {
      MulMono(y, -1, g.width);
    } else {
      MulMono(g.height, y, g.width);
    }
  }

  /** The checked access does not check the column: (-1, 1) reads cell (width-1, 0). */
  lemma AtWrapsColumns(g: Grid)
    requires g.Valid() && g.width > 0 && g.height > 0
    ensures !g.InBounds(Pos(-1, 1)) && g.At(-1, 1) == Some(g.data[g.width - 1])
  {
  }
}
