/**
 * 2024 day 21 (2024/src/day21.hpp): keypad conundrum. A chain of robot
 * arms types a code on a numeric keypad; every arm is steered from a
 * directional keypad, the last one by a human. Both keypads are laid out on
 * one grid so that their shared empty corner sits at (0, 0): the numeric
 * keys lie above it, the direction keys below, and ACTIVATE at (2, 0)
 * belongs to both.
 */
module Y2024Day21 {
  import opened AocLib

  type Digit = d: int | 0 <= d <= 9

  /** The keys of both keypads: the ten digits, ACTIVATE and the four arrows. */
  datatype Key = Num(digit: Digit) | Activate | ArrowUp | ArrowDown | ArrowLeft | ArrowRight

  predicate IsDirection(k: Key)
  {
    k == ArrowUp || k == ArrowDown || k == ArrowLeft || k == ArrowRight
  }

  // ------------------------------------------------------------ key text

  /** `operator>>` for one character: digits, `^`, `v`/`V`, `<`, `>`, `A`. */
  function ParseKey(ch: char): (r: Option<Key>)
    ensures r.Some? <==> ('0' <= ch <= '9' || ch in "^vV<>A")
  {
    if '0' <= ch <= '9' then Some(Num(ch as int - '0' as int))
    else if ch == '^' then Some(ArrowUp)
    else if ch == 'v' || ch == 'V' then Some(ArrowDown)
    else if ch == '<' then Some(ArrowLeft)
    else if ch == '>' then Some(ArrowRight)
    else if ch == 'A' then Some(Activate)
    else None
  }

  /** `operator<<`: the character a key is written as. */
  function KeyChar(k: Key): (ch: char)
    ensures ch != 'V'
  {
    match k
    case Num(d) => ('0' as int + d) as char
    case Activate => 'A'
    case ArrowUp => '^'
    case ArrowDown => 'v'
    case ArrowLeft => '<'
    case ArrowRight => '>'
  }

  /** Writing a key and reading it back gives the key; reading is only
    * ambiguous in that `V` is accepted as well as `v`. */
  lemma KeyTextRoundTrip(k: Key, ch: char)
    ensures ParseKey(KeyChar(k)) == Some(k)
    ensures ParseKey(ch) == Some(k) ==> KeyChar(k) == ch || ch == 'V'
  {
  }

  // -------------------------------------------------------- key positions

  /** The empty corner both keypads share. */
  const Gap := Pos(0, 0)

  /** KEY_POSITIONS. `Num(0)` and `ArrowUp` share (1, 0), one on each keypad. */
  function KeyPosition(k: Key): Pos
  {
    match k
    case Num(d) =>
      if d == 7 then Pos(0, 3) else if d == 8 then Pos(1, 3) else if d == 9 then Pos(2, 3)
      else if d == 4 then Pos(0, 2) else if d == 5 then Pos(1, 2) else if d == 6 then Pos(2, 2)
      else if d == 1 then Pos(0, 1) else if d == 2 then Pos(1, 1) else if d == 3 then Pos(2, 1)
      else Pos(1, 0)
    case Activate => Pos(2, 0)
    case ArrowUp => Pos(1, 0)
    case ArrowLeft => Pos(0, -1)
    case ArrowDown => Pos(1, -1)
    case ArrowRight => Pos(2, -1)
  }

  predicate NumericKey(k: Key)
  {
    k.Num? || k == Activate
  }

  predicate DirectionalKey(k: Key)
  {
    IsDirection(k) || k == Activate
  }

  /** A position on the numeric keypad (y >= 0) or the directional one (y <= 0). */
  predicate OnPad(p: Pos, numeric: bool)
  {
    p != Gap && 0 <= p.x <= 2 && (if numeric then 0 <= p.y <= 3 else -1 <= p.y <= 0)
  }

  /** No key sits on the gap, and every key lies on its own keypad. */
  lemma KeyPositions(k: Key)
    ensures KeyPosition(k) != Gap
    ensures NumericKey(k) ==> OnPad(KeyPosition(k), true)
    ensures DirectionalKey(k) ==> OnPad(KeyPosition(k), false)
  {
  }

  // ------------------------------------------------------------- walking

  /** How one key moves an arm in `check_keys`: arrows move, other keys do not. */
  function StepPos(p: Pos, k: Key): Pos
  {
    match k
    case ArrowRight => Pos(p.x + 1, p.y)
    case ArrowLeft => Pos(p.x - 1, p.y)
    case ArrowUp => Pos(p.x, p.y + 1)
    case ArrowDown => Pos(p.x, p.y - 1)
    case _ => p
  }

  /** Where an arm starting at `p` ends up after `keys`. */
  function Walk(p: Pos, keys: seq<Key>): Pos
    decreases |keys|
  {
    if keys == [] then p else Walk(StepPos(p, keys[0]), keys[1..])
  }

  /** Neither the gap nor off the box [lo, hi]. */
  predicate Safe(q: Pos, lo: Pos, hi: Pos)
  {
    q != Gap && lo.x <= q.x <= hi.x && lo.y <= q.y <= hi.y
  }

  /** Every position the arm passes through after leaving `p` is safe. */
  predicate Clear(p: Pos, keys: seq<Key>, lo: Pos, hi: Pos)
    decreases |keys|
  {
    keys == [] || (Safe(StepPos(p, keys[0]), lo, hi) && Clear(StepPos(p, keys[0]), keys[1..], lo, hi))
  }

  lemma {:induction false} WalkConcat(p: Pos, a: seq<Key>, b: seq<Key>, lo: Pos, hi: Pos)
    ensures Walk(p, a + b) == Walk(Walk(p, a), b)
    ensures Clear(p, a + b, lo, hi) <==> Clear(p, a, lo, hi) && Clear(Walk(p, a), b, lo, hi)
    decreases |a|
  {
    if a != [] {
      assert (a + b)[0] == a[0];
      assert (a + b)[1..] == a[1..] + b;
      WalkConcat(StepPos(p, a[0]), a[1..], b, lo, hi);
    } else {
      assert a + b == b;
    }
  }

  // ------------------------------------------------------------ move_arm

  /** `count` keys of one kind. */
  function Rep(k: Key, count: int): seq<Key>
    decreases count
  {
    if count <= 0 then [] else [k] + Rep(k, count - 1)
  }

  lemma {:induction false} RepProps(k: Key, count: int)
    ensures |Rep(k, count)| == if count <= 0 then 0 else count
    ensures forall i :: 0 <= i < |Rep(k, count)| ==> Rep(k, count)[i] == k
    decreases count
  {
    if count > 0 {
      RepProps(k, count - 1);
    }
  }

  lemma {:induction false} RepSnoc(k: Key, count: nat)
    ensures Rep(k, count) + [k] == Rep(k, count + 1)
  {
    if count > 0 {
      RepSnoc(k, count - 1);
    }
  }

  /** How many times the `move` lambda presses `k` for a displacement `delta`. */
  function MoveCount(k: Key, delta: Delta): int
  {
    match k
    case ArrowRight => delta.dx
    case ArrowLeft => -delta.dx
    case ArrowUp => delta.dy
    case ArrowDown => -delta.dy
    case _ => 0
  }

  /** The condition under which `move_arm` moves right before up or down
    * and left last. */
  predicate NearGap(from: Pos, to: Pos)
  {
    (from.x == 0 && to.y == 0) || (from.y == 0 && to.x == 0)
  }

  /** The keys `move_arm` appends for a move from `from` to `to`. */
  function MoveKeys(from: Pos, to: Pos): seq<Key>
  {
    var delta := PosDiff(to, from);
    if NearGap(from, to) then
      Rep(ArrowRight, MoveCount(ArrowRight, delta)) + Rep(ArrowUp, MoveCount(ArrowUp, delta))
      + Rep(ArrowDown, MoveCount(ArrowDown, delta)) + Rep(ArrowLeft, MoveCount(ArrowLeft, delta))
    else
      Rep(ArrowLeft, MoveCount(ArrowLeft, delta)) + Rep(ArrowUp, MoveCount(ArrowUp, delta))
      + Rep(ArrowDown, MoveCount(ArrowDown, delta)) + Rep(ArrowRight, MoveCount(ArrowRight, delta))
  }

  /** The `move` lambda: append `key` as often as `delta` asks for it. */
  method Move(key: Key, delta: Delta, outputs: seq<Key>) returns (result: seq<Key>)
    ensures result == outputs + Rep(key, MoveCount(key, delta))
  {
    var count := 0;
    match key {
      case ArrowRight => count := delta.dx;
      case ArrowLeft => count := -delta.dx;
      case ArrowUp => count := delta.dy;
      case ArrowDown => count := -delta.dy;
      case _ =>
    }
    ghost var pushed: nat := 0;
    result := outputs;
    while count > 0
      invariant pushed + count == MoveCount(key, delta)
      invariant count >= 0 || pushed == 0
      invariant result == outputs + Rep(key, pushed)
    {
      RepSnoc(key, pushed);
      result := result + [key];
      pushed := pushed + 1;
      count := count - 1;
    }
  }

  /** move_arm: appends the arrow presses that take an arm from `from` to `to`. */
  method MoveArm(from: Pos, to: Pos, outputs: seq<Key>) returns (result: seq<Key>)
    ensures result == outputs + MoveKeys(from, to)
  {
    var delta := PosDiff(to, from);
    if (from.x == 0 && to.y == 0) || (from.y == 0 && to.x == 0) {
      result := Move(ArrowRight, delta, outputs);
      result := Move(ArrowUp, delta, result);
      result := Move(ArrowDown, delta, result);
      result := Move(ArrowLeft, delta, result);
      Concat4(outputs, Rep(ArrowRight, delta.dx), Rep(ArrowUp, delta.dy), Rep(ArrowDown, -delta.dy), Rep(ArrowLeft, -delta.dx));
    } else {
      result := Move(ArrowLeft, delta, outputs);
      result := Move(ArrowUp, delta, result);
      result := Move(ArrowDown, delta, result);
      result := Move(ArrowRight, delta, result);
      Concat4(outputs, Rep(ArrowLeft, -delta.dx), Rep(ArrowUp, delta.dy), Rep(ArrowDown, -delta.dy), Rep(ArrowRight, delta.dx));
    }
  }

  lemma Concat3(a: seq<Key>, b: seq<Key>, c: seq<Key>)
    ensures a + b + c == a + (b + c)
  {
  }

  lemma Concat4(o: seq<Key>, a: seq<Key>, b: seq<Key>, c: seq<Key>, d: seq<Key>)
    ensures o + a + b + c + d == o + (a + b + c + d)
  {
  }

  lemma MoveKeysAreArrows(from: Pos, to: Pos)
    ensures forall i :: 0 <= i < |MoveKeys(from, to)| ==> IsDirection(MoveKeys(from, to)[i])
    ensures Activate !in MoveKeys(from, to)
  {
    var dx, dy := to.x - from.x, to.y - from.y;
    var r, u, w, l := Rep(ArrowRight, dx), Rep(ArrowUp, dy), Rep(ArrowDown, -dy), Rep(ArrowLeft, -dx);
    RepArrows(ArrowRight, dx);
    RepArrows(ArrowUp, dy);
    RepArrows(ArrowDown, -dy);
    RepArrows(ArrowLeft, -dx);
    if NearGap(from, to) {
      MoveKeysNearLegs(from, to, dx, dy);
      ArrowsJoin(r, u, w, l);
    } else {
      MoveKeysFarLegs(from, to, dx, dy);
      ArrowsJoin(l, u, w, r);
    }
  }

  /** A run of one arrow holds only that arrow. */
  lemma RepArrows(k: Key, count: int)
    requires IsDirection(k)
    ensures forall i :: 0 <= i < |Rep(k, count)| ==> IsDirection(Rep(k, count)[i])
  {
    RepProps(k, count);
  }

  /** Four runs of arrows joined are still only arrows. */
  lemma ArrowsJoin(a: seq<Key>, b: seq<Key>, c: seq<Key>, d: seq<Key>)
    requires forall i :: 0 <= i < |a| ==> IsDirection(a[i])
    requires forall i :: 0 <= i < |b| ==> IsDirection(b[i])
    requires forall i :: 0 <= i < |c| ==> IsDirection(c[i])
    requires forall i :: 0 <= i < |d| ==> IsDirection(d[i])
    ensures forall i :: 0 <= i < |a + b + c + d| ==> IsDirection((a + b + c + d)[i])
    ensures Activate !in a + b + c + d
  {
    var s := a + b + c + d;
    forall i | 0 <= i < |s|
      ensures IsDirection(s[i])
    {
      if i < |a| {
        assert s[i] == a[i];
      } else if i < |a| + |b| {
        assert s[i] == b[i - |a|];
      } else if i < |a| + |b| + |c| {
        assert s[i] == c[i - |a| - |b|];
      } else {
        assert s[i] == d[i - |a| - |b| - |c|];
      }
    }
  }

  /** move_arm takes a shortest path: one arrow per unit of distance. */
  lemma MoveKeysShortest(from: Pos, to: Pos)
    ensures |MoveKeys(from, to)| == Abs(to.x - from.x) + Abs(to.y - from.y)
  {
    var delta := PosDiff(to, from);
    RepProps(ArrowRight, delta.dx);
    RepProps(ArrowLeft, -delta.dx);
    RepProps(ArrowUp, delta.dy);
    RepProps(ArrowDown, -delta.dy);
  }

  // Straight runs of one arrow: where they end, and when they stay clear.

  lemma {:induction false} RightRun(p: Pos, n: int, lo: Pos, hi: Pos)
    ensures Walk(p, Rep(ArrowRight, n)) == if n <= 0 then p else Pos(p.x + n, p.y)
    ensures (n <= 0 || (lo.x <= p.x + 1 && p.x + n <= hi.x && lo.y <= p.y <= hi.y
                        && (p.y != 0 || p.x >= 0 || p.x + n < 0)))
            ==> Clear(p, Rep(ArrowRight, n), lo, hi)
    decreases n
  {
    if n > 0 {
      RightRun(Pos(p.x + 1, p.y), n - 1, lo, hi);
    }
  }

  lemma {:induction false} LeftRun(p: Pos, n: int, lo: Pos, hi: Pos)
    ensures Walk(p, Rep(ArrowLeft, n)) == if n <= 0 then p else Pos(p.x - n, p.y)
    ensures (n <= 0 || (lo.x <= p.x - n && p.x - 1 <= hi.x && lo.y <= p.y <= hi.y
                        && (p.y != 0 || p.x <= 0 || p.x - n > 0)))
            ==> Clear(p, Rep(ArrowLeft, n), lo, hi)
    decreases n
  {
    if n > 0 {
      LeftRun(Pos(p.x - 1, p.y), n - 1, lo, hi);
    }
  }

  lemma {:induction false} UpRun(p: Pos, n: int, lo: Pos, hi: Pos)
    ensures Walk(p, Rep(ArrowUp, n)) == if n <= 0 then p else Pos(p.x, p.y + n)
    ensures (n <= 0 || (lo.y <= p.y + 1 && p.y + n <= hi.y && lo.x <= p.x <= hi.x
                        && (p.x != 0 || p.y >= 0 || p.y + n < 0)))
            ==> Clear(p, Rep(ArrowUp, n), lo, hi)
    decreases n
  {
    if n > 0 {
      UpRun(Pos(p.x, p.y + 1), n - 1, lo, hi);
    }
  }

  lemma {:induction false} DownRun(p: Pos, n: int, lo: Pos, hi: Pos)
    ensures Walk(p, Rep(ArrowDown, n)) == if n <= 0 then p else Pos(p.x, p.y - n)
    ensures (n <= 0 || (lo.y <= p.y - n && p.y - 1 <= hi.y && lo.x <= p.x <= hi.x
                        && (p.x != 0 || p.y <= 0 || p.y - n > 0)))
            ==> Clear(p, Rep(ArrowDown, n), lo, hi)
    decreases n
  {
    if n > 0 {
      DownRun(Pos(p.x, p.y - 1), n - 1, lo, hi);
    }
  }

  /** Four walks end to end make one walk. */
  lemma FourRuns(from: Pos, a: seq<Key>, b: seq<Key>, c: seq<Key>, d: seq<Key>,
                 p1: Pos, p2: Pos, p3: Pos, to: Pos, lo: Pos, hi: Pos)
    requires Walk(from, a) == p1 && Walk(p1, b) == p2 && Walk(p2, c) == p3 && Walk(p3, d) == to
    requires Clear(from, a, lo, hi) && Clear(p1, b, lo, hi) && Clear(p2, c, lo, hi) && Clear(p3, d, lo, hi)
    ensures Walk(from, a + b + c + d) == to && Clear(from, a + b + c + d, lo, hi)
  {
    WalkConcat(from, a, b, lo, hi);
    WalkConcat(from, a + b, c, lo, hi);
    WalkConcat(from, a + b + c, d, lo, hi);
  }

  /** The requirements under which `move_arm`'s path is safe: both ends on
    * one keypad (the same side of the gap's row, right of or on its column,
    * neither of them the gap) and inside the box. */
  predicate SamePad(from: Pos, to: Pos, lo: Pos, hi: Pos)
  {
    from != Gap && to != Gap && from.x >= 0 && to.x >= 0
    && ((from.y >= 0 && to.y >= 0) || (from.y <= 0 && to.y <= 0))
    && lo.x <= from.x <= hi.x && lo.y <= from.y <= hi.y
    && lo.x <= to.x <= hi.x && lo.y <= to.y <= hi.y
  }

  /** Near the gap's row or column `move_arm` goes right, up or down, then left. */
  lemma MoveKeysClearNear(from: Pos, to: Pos, lo: Pos, hi: Pos)
    requires SamePad(from, to, lo, hi) && NearGap(from, to)
    ensures Walk(from, MoveKeys(from, to)) == to
    ensures Clear(from, MoveKeys(from, to), lo, hi)
  {
    var dx, dy := to.x - from.x, to.y - from.y;
    var a, b, c, d := Rep(ArrowRight, dx), Rep(ArrowUp, dy), Rep(ArrowDown, -dy), Rep(ArrowLeft, -dx);
    MoveKeysNearLegs(from, to, dx, dy);
    var p1 := if dx > 0 then Pos(to.x, from.y) else from;
    var p2 := if dy > 0 then Pos(p1.x, to.y) else p1;
    var p3 := Pos(p1.x, to.y);
    NearFirstLeg(from, to, lo, hi, dx, p1);
    UpLeg(from, to, lo, hi, p1, dy, p2);
    DownLeg(from, to, lo, hi, p1, p2, -dy, p3);
    NearLastLeg(from, to, lo, hi, p3, -dx);
    FourRuns(from, a, b, c, d, p1, p2, p3, to, lo, hi);
  }

  /** Elsewhere `move_arm` goes left, up or down, then right. */
  lemma MoveKeysClearFar(from: Pos, to: Pos, lo: Pos, hi: Pos)
    requires SamePad(from, to, lo, hi) && !NearGap(from, to)
    ensures Walk(from, MoveKeys(from, to)) == to
    ensures Clear(from, MoveKeys(from, to), lo, hi)
  {
    var dx, dy := to.x - from.x, to.y - from.y;
    var a, b, c, d := Rep(ArrowLeft, -dx), Rep(ArrowUp, dy), Rep(ArrowDown, -dy), Rep(ArrowRight, dx);
    MoveKeysFarLegs(from, to, dx, dy);
    var p1 := if dx < 0 then Pos(to.x, from.y) else from;
    var p2 := if dy > 0 then Pos(p1.x, to.y) else p1;
    var p3 := Pos(p1.x, to.y);
    FarFirstLeg(from, to, lo, hi, -dx, p1);
    UpLeg(from, to, lo, hi, p1, dy, p2);
    DownLeg(from, to, lo, hi, p1, p2, -dy, p3);
    FarLastLeg(from, to, lo, hi, p3, dx);
    FourRuns(from, a, b, c, d, p1, p2, p3, to, lo, hi);
  }

  /** Near the gap `move_arm` presses right, up, down, then left. */
  lemma MoveKeysNearLegs(from: Pos, to: Pos, dx: int, dy: int)
    requires NearGap(from, to) && dx == to.x - from.x && dy == to.y - from.y
    ensures MoveKeys(from, to) == Rep(ArrowRight, dx) + Rep(ArrowUp, dy) + Rep(ArrowDown, -dy) + Rep(ArrowLeft, -dx)
  {
  }

  /** Elsewhere `move_arm` presses left, up, down, then right. */
  lemma MoveKeysFarLegs(from: Pos, to: Pos, dx: int, dy: int)
    requires !NearGap(from, to) && dx == to.x - from.x && dy == to.y - from.y
    ensures MoveKeys(from, to) == Rep(ArrowLeft, -dx) + Rep(ArrowUp, dy) + Rep(ArrowDown, -dy) + Rep(ArrowRight, dx)
  {
  }

  /** Near the gap, the first leg goes right, along the starting row. */
  lemma NearFirstLeg(from: Pos, to: Pos, lo: Pos, hi: Pos, n: int, p1: Pos)
    requires SamePad(from, to, lo, hi) && NearGap(from, to)
    requires n == to.x - from.x && p1 == if n > 0 then Pos(to.x, from.y) else from
    ensures Walk(from, Rep(ArrowRight, n)) == p1 && Clear(from, Rep(ArrowRight, n), lo, hi)
    ensures Pos(p1.x, to.y) != Gap
  {
    RightRun(from, n, lo, hi);
  }

  /** Near the gap, the last leg goes left, along the target row. */
  lemma NearLastLeg(from: Pos, to: Pos, lo: Pos, hi: Pos, p3: Pos, n: int)
    requires SamePad(from, to, lo, hi) && NearGap(from, to)
    requires n == from.x - to.x && p3 == Pos(if n < 0 then to.x else from.x, to.y)
    ensures Walk(p3, Rep(ArrowLeft, n)) == to && Clear(p3, Rep(ArrowLeft, n), lo, hi)
  {
    LeftRun(p3, n, lo, hi);
  }

  /** Away from the gap, the first leg goes left, along the starting row. */
  lemma FarFirstLeg(from: Pos, to: Pos, lo: Pos, hi: Pos, n: int, p1: Pos)
    requires SamePad(from, to, lo, hi) && !NearGap(from, to)
    requires n == from.x - to.x && p1 == if n > 0 then Pos(to.x, from.y) else from
    ensures Walk(from, Rep(ArrowLeft, n)) == p1 && Clear(from, Rep(ArrowLeft, n), lo, hi)
    ensures Pos(p1.x, to.y) != Gap
  {
    LeftRun(from, n, lo, hi);
  }

  /** Away from the gap, the last leg goes right, along the target row. */
  lemma FarLastLeg(from: Pos, to: Pos, lo: Pos, hi: Pos, p3: Pos, n: int)
    requires SamePad(from, to, lo, hi) && !NearGap(from, to)
    requires n == to.x - from.x && p3 == Pos(if n < 0 then to.x else from.x, to.y)
    ensures Walk(p3, Rep(ArrowRight, n)) == to && Clear(p3, Rep(ArrowRight, n), lo, hi)
  {
    RightRun(p3, n, lo, hi);
  }

  /** The leg up, in the column `p1` reached after the first leg. */
  lemma UpLeg(from: Pos, to: Pos, lo: Pos, hi: Pos, p1: Pos, n: int, p2: Pos)
    requires SamePad(from, to, lo, hi)
    requires p1.y == from.y && (p1.x == from.x || p1.x == to.x) && Pos(p1.x, to.y) != Gap
    requires n == to.y - from.y && p2 == if n > 0 then Pos(p1.x, to.y) else p1
    ensures Walk(p1, Rep(ArrowUp, n)) == p2 && Clear(p1, Rep(ArrowUp, n), lo, hi)
  {
    UpRun(p1, n, lo, hi);
  }

  /** The leg down, in the column `p1` reached after the first leg. */
  lemma DownLeg(from: Pos, to: Pos, lo: Pos, hi: Pos, p1: Pos, p2: Pos, n: int, p3: Pos)
    requires SamePad(from, to, lo, hi)
    requires p1.y == from.y && (p1.x == from.x || p1.x == to.x) && Pos(p1.x, to.y) != Gap
    requires p2 == (if n < 0 then Pos(p1.x, to.y) else p1)
    requires n == from.y - to.y && p3 == Pos(p1.x, to.y)
    ensures Walk(p2, Rep(ArrowDown, n)) == p3 && Clear(p2, Rep(ArrowDown, n), lo, hi)
  {
    DownRun(p2, n, lo, hi);
  }

  /** On one keypad and inside a box, the path of `move_arm` ends at `to`
    * and never touches the gap or leaves the box. */
  lemma MoveKeysClear(from: Pos, to: Pos, lo: Pos, hi: Pos)
    requires SamePad(from, to, lo, hi)
    ensures Walk(from, MoveKeys(from, to)) == to
    ensures Clear(from, MoveKeys(from, to), lo, hi)
  {
    if NearGap(from, to) {
      MoveKeysClearNear(from, to, lo, hi);
    } else {
      MoveKeysClearFar(from, to, lo, hi);
    }
  }

  // ---------------------------------------------------------- check_keys

  /**
   * check_keys from arm position `p`: arrows move the arm, ACTIVATE must
   * find the arm on the next expected position, the arm may never rest on
   * the gap or outside [lo, hi], and every expected position must be used.
   */
  function CheckFrom(p: Pos, keys: seq<Key>, targets: seq<Pos>, lo: Pos, hi: Pos): bool
    decreases |keys|
  {
    if keys == [] then targets == []
    else if keys[0] == Activate then
      if targets == [] || p != targets[0] then false
      else Safe(p, lo, hi) && CheckFrom(p, keys[1..], targets[1..], lo, hi)
    else
      var q := StepPos(p, keys[0]);
      Safe(q, lo, hi) && CheckFrom(q, keys[1..], targets, lo, hi)
  }

  /** check_keys: the arm starts on ACTIVATE. */
  function KeysValid(keys: seq<Key>, targets: seq<Pos>, lo: Pos, hi: Pos): bool
  {
    CheckFrom(KeyPosition(Activate), keys, targets, lo, hi)
  }

  /** A sequence that passes the check presses ACTIVATE once per expected position. */
  lemma {:induction false} CheckCountsActivations(p: Pos, keys: seq<Key>, targets: seq<Pos>, lo: Pos, hi: Pos)
    requires CheckFrom(p, keys, targets, lo, hi)
    ensures multiset(keys)[Activate] == |targets|
    decreases |keys|
  {
    if keys != [] {
      assert keys == [keys[0]] + keys[1..];
      if keys[0] == Activate {
        CheckCountsActivations(p, keys[1..], targets[1..], lo, hi);
      } else {
        CheckCountsActivations(StepPos(p, keys[0]), keys[1..], targets, lo, hi);
      }
    }
  }

  /** Arrows in front of the rest: the check walks them, then goes on. */
  lemma {:induction false} CheckArrows(p: Pos, arrows: seq<Key>, rest: seq<Key>, targets: seq<Pos>, lo: Pos, hi: Pos)
    requires forall i :: 0 <= i < |arrows| ==> IsDirection(arrows[i])
    ensures CheckFrom(p, arrows + rest, targets, lo, hi)
            == (Clear(p, arrows, lo, hi) && CheckFrom(Walk(p, arrows), rest, targets, lo, hi))
    decreases |arrows|
  {
    if arrows == [] {
      assert arrows + rest == rest;
    } else {
      assert (arrows + rest)[0] == arrows[0];
      assert (arrows + rest)[1..] == arrows[1..] + rest;
      CheckArrows(StepPos(p, arrows[0]), arrows[1..], rest, targets, lo, hi);
    }
  }

  /** check_keys as a loop over the keys, with `it` as an index into the targets. */
  method CheckKeys(keys: seq<Key>, keyPositions: seq<Pos>, lowerLeft: Pos, upperRight: Pos)
    returns (valid: bool)
    ensures valid == KeysValid(keys, keyPositions, lowerLeft, upperRight)
  {
    var curr := KeyPosition(Activate);
    var it := 0;
    var i := 0;
    while i < |keys|
      invariant 0 <= i <= |keys| && 0 <= it <= |keyPositions|
      invariant KeysValid(keys, keyPositions, lowerLeft, upperRight)
                == CheckFrom(curr, keys[i..], keyPositions[it..], lowerLeft, upperRight)
    {
      assert keys[i..][0] == keys[i] && keys[i..][1..] == keys[i + 1..];
      ghost var before := curr;
      match keys[i] {
        case ArrowRight => curr := Pos(curr.x + 1, curr.y);
        case ArrowLeft => curr := Pos(curr.x - 1, curr.y);
        case ArrowUp => curr := Pos(curr.x, curr.y + 1);
        case ArrowDown => curr := Pos(curr.x, curr.y - 1);
        case Activate =>
          if it == |keyPositions| {
            return false;
          }
          if curr != keyPositions[it] {
            return false;
          }
          assert keyPositions[it..][1..] == keyPositions[it + 1..];
          it := it + 1;
        case Num(_) =>
      }
      assert keys[i] != Activate ==> curr == StepPos(before, keys[i]);
      if curr.x == 0 && curr.y == 0 {
        return false;
      }
      if curr.x < lowerLeft.x || curr.y < lowerLeft.y || curr.x > upperRight.x || curr.y > upperRight.y {
        return false;
      }
      i := i + 1;
    }
    valid := it == |keyPositions|;
  }

  // --------------------------------------------------------- control_arm

  /**
   * How an arm is steered: for an arm resting over `prev` that must press
   * `key`, the keys pressed on the keypad one layer down. The counting and
   * checking results below hold for every strategy with the properties they
   * name; `ArmSegment` is the one `move_arm` implements.
   */
  type Strategy = (Key, Key) -> seq<Key>

  /** The arrows of `move_arm` followed by ACTIVATE, as control_arm and
    * press_key emit them. */
  function ArmSegment(prev: Key, key: Key): seq<Key>
  {
    MoveKeys(KeyPosition(prev), KeyPosition(key)) + [Activate]
  }

  /** `strategy` presses what `move_arm` and ACTIVATE press. The pointwise
    * form keeps the segments of `move_arm` out of sight until one is named. */
  ghost predicate MovesLikeArm(strategy: Strategy)
  {
    forall a, b {:trigger ArmSegment(a, b)} :: strategy(a, b) == ArmSegment(a, b)
  }

  lemma ArmSegmentMovesLikeArm()
    ensures MovesLikeArm(ArmSegment)
  {
  }

  /** The key pressed last in `keys`, or `prev` when there is none. */
  function LastOr(prev: Key, keys: seq<Key>): Key
  {
    if keys == [] then prev else keys[|keys| - 1]
  }

  /** The keys one layer down that press `inputs` in order, the arm starting over `prev`. */
  function Expand(strategy: Strategy, prev: Key, inputs: seq<Key>): seq<Key>
    decreases |inputs|
  {
    if inputs == [] then [] else strategy(prev, inputs[0]) + Expand(strategy, inputs[0], inputs[1..])
  }

  lemma {:induction false} ExpandSnoc(strategy: Strategy, prev: Key, inputs: seq<Key>, k: Key)
    ensures Expand(strategy, prev, inputs + [k]) == Expand(strategy, prev, inputs) + strategy(LastOr(prev, inputs), k)
    decreases |inputs|
  {
    if inputs == [] {
      assert inputs + [k] == [k];
    } else {
      assert (inputs + [k])[0] == inputs[0];
      assert (inputs + [k])[1..] == inputs[1..] + [k];
      ExpandSnoc(strategy, inputs[0], inputs[1..], k);
    }
  }

  lemma ArmStep(strategy: Strategy, prev: Key, key: Key, from: Pos, to: Pos)
    requires MovesLikeArm(strategy) && KeyPosition(prev) == from && KeyPosition(key) == to
    ensures strategy(prev, key) == MoveKeys(from, to) + [Activate]
  {
    assert strategy(prev, key) == ArmSegment(prev, key);
  }

  /** control_arm, one input at a time. */
  method ControlArm(ghost strategy: Strategy, inputs: seq<Key>) returns (outputs: seq<Key>)
    requires MovesLikeArm(strategy)
    ensures outputs == Expand(strategy, Activate, inputs)
  {
    outputs := [];
    var currPos := KeyPosition(Activate);
    for i := 0 to |inputs|
      invariant outputs == Expand(strategy, Activate, inputs[..i])
      invariant currPos == KeyPosition(LastOr(Activate, inputs[..i]))
    {
      assert inputs[..i + 1] == inputs[..i] + [inputs[i]];
      ExpandSnoc(strategy, Activate, inputs[..i], inputs[i]);
      var newPos := KeyPosition(inputs[i]);
      ArmStep(strategy, LastOr(Activate, inputs[..i]), inputs[i], currPos, newPos);
      ghost var before := outputs;
      outputs := MoveArm(currPos, newPos, outputs);
      outputs := outputs + [Activate];
      Concat3(before, MoveKeys(currPos, newPos), [Activate]);
      currPos := newPos;
    }
    assert inputs[..|inputs|] == inputs;
  }

  /** A segment ends with the one ACTIVATE that presses its key. */
  predicate Settles(segment: seq<Key>)
  {
    |segment| > 0 && segment[|segment| - 1] == Activate && Activate !in segment[..|segment| - 1]
  }

  ghost predicate AllSettle(strategy: Strategy)
  {
    forall a, b :: Settles(strategy(a, b))
  }

  lemma ArmSegmentSettles()
    ensures AllSettle(ArmSegment)
  {
    forall a, b
      ensures Settles(ArmSegment(a, b))
    {
      MoveKeysAreArrows(KeyPosition(a), KeyPosition(b));
      var s := ArmSegment(a, b);
      assert s[..|s| - 1] == MoveKeys(KeyPosition(a), KeyPosition(b));
    }
  }

  /** The output holds one ACTIVATE per input, and ends with one. */
  lemma {:induction false} ExpandActivations(strategy: Strategy, prev: Key, inputs: seq<Key>)
    requires AllSettle(strategy)
    ensures multiset(Expand(strategy, prev, inputs))[Activate] == |inputs|
    ensures inputs != [] ==> Expand(strategy, prev, inputs)[|Expand(strategy, prev, inputs)| - 1] == Activate
    decreases |inputs|
  {
    if inputs != [] {
      var s := strategy(prev, inputs[0]);
      var rest := Expand(strategy, inputs[0], inputs[1..]);
      var e := Expand(strategy, prev, inputs);
      assert e == s + rest;
      assert Settles(s);
      SettledActivations(s);
      ExpandActivations(strategy, inputs[0], inputs[1..]);
      assert multiset(e) == multiset(s) + multiset(rest);
      if inputs[1..] == [] {
        assert rest == [] && e == s;
      } else {
        assert e[|e| - 1] == rest[|rest| - 1];
      }
    }
  }

  /** A settled segment holds exactly one ACTIVATE. */
  lemma SettledActivations(s: seq<Key>)
    requires Settles(s)
    ensures multiset(s)[Activate] == 1
  {
    var init := s[..|s| - 1];
    assert s == init + [Activate];
    assert Activate !in multiset(init);
  }

  /** control_arm presses ACTIVATE exactly once per input, last in each segment. */
  lemma ControlArmActivations(strategy: Strategy, inputs: seq<Key>)
    requires MovesLikeArm(strategy)
    ensures multiset(Expand(strategy, Activate, inputs))[Activate] == |inputs|
    ensures inputs != [] ==> Expand(strategy, Activate, inputs)[|Expand(strategy, Activate, inputs)| - 1] == Activate
  {
    MovesLikeArmSettles(strategy);
    ExpandActivations(strategy, Activate, inputs);
  }

  function Positions(keys: seq<Key>): (ps: seq<Pos>)
    ensures |ps| == |keys|
    ensures forall i :: 0 <= i < |keys| ==> ps[i] == KeyPosition(keys[i])
    decreases |keys|
  {
    if keys == [] then [] else [KeyPosition(keys[0])] + Positions(keys[1..])
  }

  /** The box check_keys is given by control_arm: from LEFT to NINE. */
  const PadLow := Pos(0, -1)
  const PadHigh := Pos(2, 3)

  lemma PadCorners()
    ensures KeyPosition(ArrowLeft) == PadLow && KeyPosition(Num(9)) == PadHigh
  {
  }

  /** A segment that walks on arrows from `from` to `to`, never over the gap
    * or out of the box, and then presses ACTIVATE. */
  predicate SafeSegment(segment: seq<Key>, from: Pos, to: Pos)
  {
    |segment| > 0 && segment[|segment| - 1] == Activate
    && (forall i :: 0 <= i < |segment| - 1 ==> IsDirection(segment[i]))
    && Walk(from, segment[..|segment| - 1]) == to
    && Clear(from, segment[..|segment| - 1], PadLow, PadHigh)
  }

  ghost predicate SafeOnPad(strategy: Strategy, numeric: bool)
  {
    forall a, b ::
      (OnPad(KeyPosition(a), numeric) && OnPad(KeyPosition(b), numeric))
      ==> SafeSegment(strategy(a, b), KeyPosition(a), KeyPosition(b))
  }

  /** A segment of move_arm between two keys of one keypad is safe. */
  lemma ArmSegmentSafe(a: Key, b: Key, numeric: bool)
    requires OnPad(KeyPosition(a), numeric) && OnPad(KeyPosition(b), numeric)
    ensures SafeSegment(ArmSegment(a, b), KeyPosition(a), KeyPosition(b))
  {
    var from, to := KeyPosition(a), KeyPosition(b);
    assert SamePad(from, to, PadLow, PadHigh);
    MoveKeysClear(from, to, PadLow, PadHigh);
    MoveKeysAreArrows(from, to);
    var s := ArmSegment(a, b);
    assert s[..|s| - 1] == MoveKeys(from, to);
  }

  lemma MovesLikeArmSafe(strategy: Strategy, numeric: bool)
    requires MovesLikeArm(strategy)
    ensures SafeOnPad(strategy, numeric)
  {
    forall a, b | OnPad(KeyPosition(a), numeric) && OnPad(KeyPosition(b), numeric)
      ensures SafeSegment(strategy(a, b), KeyPosition(a), KeyPosition(b))
    {
      ArmSegmentSafe(a, b, numeric);
      assert strategy(a, b) == ArmSegment(a, b);
    }
  }

  /** With safe segments, the expansion of inputs on one keypad passes check_keys. */
  lemma {:induction false} ExpandChecks(strategy: Strategy, prev: Key, inputs: seq<Key>, numeric: bool)
    requires SafeOnPad(strategy, numeric) && OnPad(KeyPosition(prev), numeric)
    requires forall i :: 0 <= i < |inputs| ==> OnPad(KeyPosition(inputs[i]), numeric)
    ensures CheckFrom(KeyPosition(prev), Expand(strategy, prev, inputs), Positions(inputs), PadLow, PadHigh)
    decreases |inputs|
  {
    if inputs != [] {
      var p, q := KeyPosition(prev), KeyPosition(inputs[0]);
      var s := strategy(prev, inputs[0]);
      var rest := Expand(strategy, inputs[0], inputs[1..]);
      var targets := Positions(inputs);
      assert OnPad(q, numeric);
      assert SafeSegment(s, p, q);
      ExpandChecks(strategy, inputs[0], inputs[1..], numeric);
      assert targets[1..] == Positions(inputs[1..]);
      SegmentChecks(s, rest, p, q, targets);
      assert Expand(strategy, prev, inputs) == s + rest;
    }
  }

  /** A safe segment to the next target, followed by keys that pass the
    * remaining targets from there, passes all the targets. */
  lemma SegmentChecks(s: seq<Key>, rest: seq<Key>, p: Pos, q: Pos, targets: seq<Pos>)
    requires SafeSegment(s, p, q) && Safe(q, PadLow, PadHigh)
    requires targets != [] && targets[0] == q && CheckFrom(q, rest, targets[1..], PadLow, PadHigh)
    ensures CheckFrom(p, s + rest, targets, PadLow, PadHigh)
  {
    var arrows := s[..|s| - 1];
    var after := [Activate] + rest;
    CheckActivate(q, rest, targets, PadLow, PadHigh);
    assert CheckFrom(q, after, targets, PadLow, PadHigh);
    SplitActivate(s, rest);
    CheckArrows(p, arrows, after, targets, PadLow, PadHigh);
    assert CheckFrom(p, arrows + after, targets, PadLow, PadHigh);
  }

  /** A segment ending in ACTIVATE, split before that key. */
  lemma SplitActivate(s: seq<Key>, rest: seq<Key>)
    requires |s| > 0 && s[|s| - 1] == Activate
    ensures s + rest == s[..|s| - 1] + ([Activate] + rest)
  {
    assert s == s[..|s| - 1] + [Activate];
  }

  /** Pressing ACTIVATE passes exactly when the arm is safe and on the next target. */
  lemma CheckActivate(q: Pos, rest: seq<Key>, targets: seq<Pos>, lo: Pos, hi: Pos)
    ensures CheckFrom(q, [Activate] + rest, targets, lo, hi)
            == (targets != [] && targets[0] == q && Safe(q, lo, hi) && CheckFrom(q, rest, targets[1..], lo, hi))
  {
    var keys := [Activate] + rest;
    assert keys[0] == Activate && keys[1..] == rest;
  }

  /** The debug assertion of control_arm: for inputs all from one keypad the
    * output steers the arm over exactly those keys, never over the gap and
    * never off the keypads. */
  lemma ControlArmChecks(strategy: Strategy, inputs: seq<Key>)
    requires MovesLikeArm(strategy)
    requires (forall i :: 0 <= i < |inputs| ==> NumericKey(inputs[i]))
             || (forall i :: 0 <= i < |inputs| ==> DirectionalKey(inputs[i]))
    ensures KeysValid(Expand(strategy, Activate, inputs), Positions(inputs), PadLow, PadHigh)
  {
    var numeric := forall i :: 0 <= i < |inputs| ==> NumericKey(inputs[i]);
    InputsOnPad(inputs, numeric);
    MovesLikeArmSafe(strategy, numeric);
    assert OnPad(KeyPosition(Activate), numeric);
    ExpandChecks(strategy, Activate, inputs, numeric);
  }

  /** Keys all from one keypad lie on that keypad. */
  lemma InputsOnPad(inputs: seq<Key>, numeric: bool)
    requires numeric ==> forall i :: 0 <= i < |inputs| ==> NumericKey(inputs[i])
    requires !numeric ==> forall i :: 0 <= i < |inputs| ==> DirectionalKey(inputs[i])
    ensures forall i :: 0 <= i < |inputs| ==> OnPad(KeyPosition(inputs[i]), numeric)
  {
    forall i | 0 <= i < |inputs|
      ensures OnPad(KeyPosition(inputs[i]), numeric)
    {
      KeyPositions(inputs[i]);
    }
  }

  // ------------------------------------------------------- press counting

  /**
   * Presses the human makes so that the arm `layer` levels up, resting over
   * `prev`, presses `key`, when every arm below it rests over ACTIVATE.
   */
  function Cost(strategy: Strategy, layer: nat, prev: Key, key: Key): nat
    decreases layer, 0, 0
  {
    if layer == 0 then 1 else CostSeq(strategy, layer - 1, Activate, strategy(prev, key))
  }

  /** The same for a run of keys, the first pressed after `prev`. */
  function CostSeq(strategy: Strategy, layer: nat, prev: Key, keys: seq<Key>): nat
    decreases layer, 1, |keys|
  {
    if keys == [] then 0 else Cost(strategy, layer, prev, keys[0]) + CostSeq(strategy, layer, keys[0], keys[1..])
  }

  lemma {:induction false} CostSeqAppend(strategy: Strategy, layer: nat, prev: Key, a: seq<Key>, b: seq<Key>)
    ensures CostSeq(strategy, layer, prev, a + b)
            == CostSeq(strategy, layer, prev, a) + CostSeq(strategy, layer, LastOr(prev, a), b)
    decreases |a|
  {
    if a == [] {
      assert a + b == b;
    } else {
      assert (a + b)[0] == a[0];
      assert (a + b)[1..] == a[1..] + b;
      CostSeqAppend(strategy, layer, a[0], a[1..], b);
    }
  }

  /** At the human's layer every key costs one press. */
  lemma {:induction false} CostSeqHuman(strategy: Strategy, prev: Key, keys: seq<Key>)
    ensures CostSeq(strategy, 0, prev, keys) == |keys|
    decreases |keys|
  {
    if keys != [] {
      CostSeqHuman(strategy, keys[0], keys[1..]);
    }
  }

  /** One layer up costs what the expansion costs one layer down. */
  lemma {:induction false} CostSeqExpand(strategy: Strategy, layer: nat, prev: Key, keys: seq<Key>)
    requires AllSettle(strategy)
    ensures CostSeq(strategy, layer + 1, prev, keys) == CostSeq(strategy, layer, Activate, Expand(strategy, prev, keys))
    decreases |keys|
  {
    if keys != [] {
      var s := strategy(prev, keys[0]);
      assert Settles(s);
      CostSeqExpand(strategy, layer, keys[0], keys[1..]);
      CostSeqAppend(strategy, layer, Activate, s, Expand(strategy, keys[0], keys[1..]));
    }
  }

  /** The expansion applied `n` times, as count_presses_bfs iterates control_arm. */
  function ExpandIter(strategy: Strategy, keys: seq<Key>, n: nat): seq<Key>
  {
    if n == 0 then keys else Expand(strategy, Activate, ExpandIter(strategy, keys, n - 1))
  }

  lemma {:induction false} ExpandIterShift(strategy: Strategy, keys: seq<Key>, layer: nat, n: nat)
    requires AllSettle(strategy)
    ensures CostSeq(strategy, layer + n, Activate, keys) == CostSeq(strategy, layer, Activate, ExpandIter(strategy, keys, n))
    decreases n
  {
    if n == 0 {
      assert ExpandIter(strategy, keys, n) == keys;
    } else {
      var below := ExpandIter(strategy, keys, n - 1);
      ExpandIterShift(strategy, keys, layer + 1, n - 1);
      CostSeqExpand(strategy, layer, Activate, below);
      assert layer + n == layer + 1 + (n - 1);
    }
  }

  /** The breadth-first count (the length of the expansion applied `layers`
    * times) is the layered press count. */
  lemma ExpandIterCost(strategy: Strategy, keys: seq<Key>, layers: nat)
    requires AllSettle(strategy)
    ensures |ExpandIter(strategy, keys, layers)| == CostSeq(strategy, layers, Activate, keys)
  {
    ExpandIterShift(strategy, keys, 0, layers);
    CostSeqHuman(strategy, Activate, ExpandIter(strategy, keys, layers));
  }

  // The dfs counter's view: the arms' resting keys are state, one per layer.

  /**
   * press_key on the state `last` (the key each layer's arm rests over):
   * the press count and the new state. The count depends on the lower
   * layers' keys, which is why the memoised version needs them at ACTIVATE.
   */
  function Press(strategy: Strategy, last: seq<Key>, layer: nat, key: Key): (r: (int, seq<Key>))
    requires layer < |last|
    ensures |r.1| == |last|
    decreases layer, 0, 0
  {
    if layer == 0 then (1, last[0 := key])
    else
      var (count, after) := PressAll(strategy, last, layer - 1, strategy(last[layer], key));
      (count, after[layer := key])
  }

  function PressAll(strategy: Strategy, last: seq<Key>, layer: nat, keys: seq<Key>): (r: (int, seq<Key>))
    requires layer < |last|
    ensures |r.1| == |last|
    decreases layer, 1, |keys|
  {
    if keys == [] then (0, last)
    else
      var (c1, l1) := Press(strategy, last, layer, keys[0]);
      var (c2, l2) := PressAll(strategy, l1, layer, keys[1..]);
      (c1 + c2, l2)
  }

  lemma {:induction false} PressAllSnoc(strategy: Strategy, last: seq<Key>, layer: nat, keys: seq<Key>, k: Key)
    requires layer < |last|
    ensures var (c, after) := PressAll(strategy, last, layer, keys);
            PressAll(strategy, last, layer, keys + [k])
            == (c + Press(strategy, after, layer, k).0, Press(strategy, after, layer, k).1)
    decreases |keys|
  {
    if keys == [] {
      assert keys + [k] == [k];
    } else {
      assert (keys + [k])[0] == keys[0];
      assert (keys + [k])[1..] == keys[1..] + [k];
      PressAllSnoc(strategy, Press(strategy, last, layer, keys[0]).1, layer, keys[1..], k);
    }
  }

  /** Every arm below `layer` rests over ACTIVATE. */
  ghost predicate Settled(last: seq<Key>, layer: nat)
  {
    forall l :: 0 <= l < layer && l < |last| ==> last[l] == Activate
  }

  /** With the lower arms settled, press_key counts `Cost` and only records
    * the key pressed at its own layer. */
  lemma {:induction false} PressSettled(strategy: Strategy, last: seq<Key>, layer: nat, key: Key)
    requires AllSettle(strategy) && layer < |last| && Settled(last, layer)
    ensures Press(strategy, last, layer, key) == (Cost(strategy, layer, last[layer], key), last[layer := key])
    decreases layer, 0, 0
  {
    if layer > 0 {
      var keys := strategy(last[layer], key);
      assert Settles(keys);
      PressAllSettled(strategy, last, layer - 1, keys);
      assert last[layer - 1 := Activate] == last;
    }
  }

  lemma {:induction false} PressAllSettled(strategy: Strategy, last: seq<Key>, layer: nat, keys: seq<Key>)
    requires AllSettle(strategy) && layer < |last| && Settled(last, layer)
    ensures PressAll(strategy, last, layer, keys)
            == (CostSeq(strategy, layer, last[layer], keys), last[layer := LastOr(last[layer], keys)])
    decreases layer, 1, |keys|
  {
    if keys == [] {
      assert last[layer := last[layer]] == last;
    } else {
      PressSettled(strategy, last, layer, keys[0]);
      var l1 := last[layer := keys[0]];
      PressAllSettled(strategy, l1, layer, keys[1..]);
      assert l1[layer := LastOr(keys[0], keys[1..])] == last[layer := LastOr(last[layer], keys)];
    }
  }

  datatype CacheKey = CacheKey(layer: int, key: Key, prevKey: Key)

  lemma MovesLikeArmSettles(strategy: Strategy)
    requires MovesLikeArm(strategy)
    ensures AllSettle(strategy)
  {
    ArmSegmentSettles();
    forall a, b
      ensures Settles(strategy(a, b))
    {
      assert strategy(a, b) == ArmSegment(a, b);
    }
  }

  lemma PrefixEmpty(s: seq<Key>, t: seq<Key>)
    requires s == [] + t
    ensures s == t
  {
  }

  /** The keys press_key sends one layer down: `move_arm` from the resting
    * key to `key`, then ACTIVATE. */
  method KeySequence(ghost strategy: Strategy, prev: Key, key: Key) returns (keySequence: seq<Key>)
    requires MovesLikeArm(strategy)
    ensures keySequence == strategy(prev, key)
  {
    var from, to := KeyPosition(prev), KeyPosition(key);
    var arrows := MoveArm(from, to, []);
    PrefixEmpty(arrows, MoveKeys(from, to));
    ArmStep(strategy, prev, key, from, to);
    keySequence := arrows + [Activate];
  }

  /**
   * RobotController: one resting key per layer (0 is the human) and the
   * memo table of press_key_memo. `strategy` is the steering the controller
   * performs through `move_arm`, named so that the counts can be stated.
   */
  class RobotController {
    const layers: nat
    ghost const strategy: Strategy
    var lastKey: seq<Key>
    var countCache: map<CacheKey, int>

    ghost predicate Valid()
      reads this
    {
      |lastKey| == layers + 1 && MovesLikeArm(strategy)
      && forall ck :: ck in countCache ==>
           1 <= ck.layer <= layers && countCache[ck] == Cost(strategy, ck.layer, ck.prevKey, ck.key)
    }

    constructor(ghost strategy: Strategy, layers: nat)
      requires MovesLikeArm(strategy)
      ensures Valid() && this.layers == layers && this.strategy == strategy
      ensures lastKey == seq(layers + 1, _ => Activate) && countCache == map[]
    {
      this.layers := layers;
      this.strategy := strategy;
      lastKey := seq(layers + 1, _ => Activate);
      countCache := map[];
    }

    /** press_key: presses `key` on the arm `layers - depth` levels up. */
    method PressKey(key: Key, depth: nat) returns (count: int)
      requires |lastKey| == layers + 1 && MovesLikeArm(strategy) && depth <= layers
      modifies this
      ensures (count, lastKey) == Press(strategy, old(lastKey), layers - depth, key)
      ensures countCache == old(countCache)
      decreases layers - depth
    {
      var layer := layers - depth;
      count := 0;
      if layer == 0 {
        count := 1;
      } else {
        var keySequence := KeySequence(strategy, lastKey[layer], key);
        for i := 0 to |keySequence|
          invariant |lastKey| == layers + 1 && countCache == old(countCache)
          invariant (count, lastKey) == PressAll(strategy, old(lastKey), layer - 1, keySequence[..i])
        {
          PressAllSnoc(strategy, old(lastKey), layer - 1, keySequence[..i], keySequence[i]);
          assert keySequence[..i + 1] == keySequence[..i] + [keySequence[i]];
          var c := PressKey(keySequence[i], depth + 1);
          count := count + c;
        }
        assert keySequence[..|keySequence|] == keySequence;
      }
      lastKey := lastKey[layer := key];
    }

    /** press_key_memo: the same count, looked up by (layer, key, resting key). */
    method PressKeyMemo(key: Key, depth: nat) returns (count: int)
      requires Valid() && depth <= layers && Settled(lastKey, layers - depth)
      modifies this
      ensures Valid()
      ensures count == Cost(strategy, layers - depth, old(lastKey)[layers - depth], key)
      ensures lastKey == old(lastKey)[layers - depth := key]
      decreases layers - depth, 1
    {
      var layer := layers - depth;
      count := 0;
      if layer == 0 {
        count := 1;
      } else {
        var cacheKey := CacheKey(layer, key, lastKey[layer]);
        if cacheKey in countCache {
          count := countCache[cacheKey];
        } else {
          var keySequence := KeySequence(strategy, lastKey[layer], key);
          count := PressSequence(keySequence, depth);
          MovesLikeArmSettles(strategy);
          assert lastKey == old(lastKey);
          countCache := countCache[cacheKey := count];
        }
      }
      lastKey := lastKey[layer := key];
    }

    /** The loop of press_key_memo: presses `keySequence` one layer below
      * `layers - depth`, starting from ACTIVATE. */
    method PressSequence(keySequence: seq<Key>, depth: nat) returns (count: int)
      requires Valid() && depth < layers && Settled(lastKey, layers - depth)
      modifies this
      ensures Valid()
      ensures count == CostSeq(strategy, layers - depth - 1, Activate, keySequence)
      ensures lastKey == old(lastKey)[layers - depth - 1 := LastOr(Activate, keySequence)]
      decreases layers - depth, 0
    {
      var below := layers - depth - 1;
      count := 0;
      for i := 0 to |keySequence|
        invariant Valid()
        invariant lastKey == old(lastKey)[below := LastOr(Activate, keySequence[..i])]
        invariant count == CostSeq(strategy, below, Activate, keySequence[..i])
      {
        CostSeqAppend(strategy, below, Activate, keySequence[..i], [keySequence[i]]);
        assert keySequence[..i + 1] == keySequence[..i] + [keySequence[i]];
        var c := PressKeyMemo(keySequence[i], depth + 1);
        count := count + c;
      }
      assert keySequence[..|keySequence|] == keySequence;
    }

    /** count_presses: presses `keys` in turn at layer `layers`. */
    method CountPresses(keys: seq<Key>, layers: nat) returns (count: int)
      requires Valid() && layers <= this.layers && Settled(lastKey, layers)
      modifies this
      ensures Valid()
      ensures count == CostSeq(strategy, layers, old(lastKey)[layers], keys)
      ensures lastKey == old(lastKey)[layers := LastOr(old(lastKey)[layers], keys)]
    {
      count := 0;
      for i := 0 to |keys|
        invariant Valid()
        invariant lastKey == old(lastKey)[layers := LastOr(old(lastKey)[layers], keys[..i])]
        invariant count == CostSeq(strategy, layers, old(lastKey)[layers], keys[..i])
      {
        CostSeqAppend(strategy, layers, old(lastKey)[layers], keys[..i], [keys[i]]);
        assert keys[..i + 1] == keys[..i] + [keys[i]];
        var c := PressKeyMemo(keys[i], this.layers - layers);
        count := count + c;
      }
      assert keys[..|keys|] == keys;
    }
  }

  /** count_presses_bfs: the length after applying control_arm `layers` times. */
  method CountPressesBfs(ghost strategy: Strategy, keys: seq<Key>, layers: int) returns (count: int)
    requires MovesLikeArm(strategy)
    ensures count == |ExpandIter(strategy, keys, if layers < 0 then 0 else layers)|
    ensures count == CostSeq(strategy, if layers < 0 then 0 else layers, Activate, keys)
  {
    var current := keys;
    var i := 0;
    while i < layers
      invariant (layers < 0 && i == 0) || 0 <= i <= layers
      invariant current == ExpandIter(strategy, keys, i)
    {
      current := ControlArm(strategy, current);
      i := i + 1;
    }
    count := |current|;
    MovesLikeArmSettles(strategy);
    ExpandIterCost(strategy, keys, i);
  }

  /** count_presses_dfs: a fresh controller, each key pressed at the top layer. */
  method CountPressesDfs(ghost strategy: Strategy, keys: seq<Key>, layers: nat) returns (count: int)
    requires MovesLikeArm(strategy)
    ensures count == CostSeq(strategy, layers, Activate, keys)
  {
    var controller := new RobotController(strategy, layers);
    MovesLikeArmSettles(strategy);
    count := 0;
    for i := 0 to |keys|
      invariant |controller.lastKey| == layers + 1 && controller.layers == layers
      invariant controller.strategy == strategy
      invariant Settled(controller.lastKey, layers)
      invariant controller.lastKey[layers] == LastOr(Activate, keys[..i])
      invariant count == CostSeq(strategy, layers, Activate, keys[..i])
    {
      CostSeqAppend(strategy, layers, Activate, keys[..i], [keys[i]]);
      assert keys[..i + 1] == keys[..i] + [keys[i]];
      ghost var before := controller.lastKey;
      PressSettled(strategy, before, layers, keys[i]);
      var c := controller.PressKey(keys[i], 0);
      assert c == Cost(strategy, layers, before[layers], keys[i]);
      assert controller.lastKey == before[layers := keys[i]];
      count := count + c;
    }
    assert keys[..|keys|] == keys;
  }

  /** count_presses_memo: as the dfs count, through the memo table. */
  method CountPressesMemo(ghost strategy: Strategy, keys: seq<Key>, layers: nat) returns (count: int)
    requires MovesLikeArm(strategy)
    ensures count == CostSeq(strategy, layers, Activate, keys)
  {
    var controller := new RobotController(strategy, layers);
    count := 0;
    for i := 0 to |keys|
      invariant controller.Valid() && controller.layers == layers
      invariant controller.strategy == strategy
      invariant Settled(controller.lastKey, layers)
      invariant controller.lastKey[layers] == LastOr(Activate, keys[..i])
      invariant count == CostSeq(strategy, layers, Activate, keys[..i])
    {
      CostSeqAppend(strategy, layers, Activate, keys[..i], [keys[i]]);
      assert keys[..i + 1] == keys[..i] + [keys[i]];
      var c := controller.PressKeyMemo(keys[i], 0);
      count := count + c;
    }
    assert keys[..|keys|] == keys;
  }

  /** One robot up, a key costs its segment: the distance plus ACTIVATE. */
  lemma CostOneRobot(strategy: Strategy, prev: Key, key: Key)
    requires MovesLikeArm(strategy)
    ensures Cost(strategy, 1, prev, key)
            == Abs(KeyPosition(key).x - KeyPosition(prev).x) + Abs(KeyPosition(key).y - KeyPosition(prev).y) + 1
  {
    var from, to := KeyPosition(prev), KeyPosition(key);
    var segment := strategy(prev, key);
    ArmStep(strategy, prev, key, from, to);
    MoveKeysShortest(from, to);
    assert |segment| == Abs(to.x - from.x) + Abs(to.y - from.y) + 1;
    CostSeqHuman(strategy, Activate, segment);
    assert Cost(strategy, 1, prev, key) == CostSeq(strategy, 0, Activate, segment);
  }

  /** The expected count for `029A` one robot up: twelve presses. */
  lemma CountExample(strategy: Strategy)
    requires MovesLikeArm(strategy)
    ensures CostSeq(strategy, 1, Activate, [Num(0), Num(2), Num(9), Activate]) == 12
  {
    var keys := [Num(0), Num(2), Num(9), Activate];
    CostOneRobot(strategy, Activate, Num(0));
    CostOneRobot(strategy, Num(0), Num(2));
    CostOneRobot(strategy, Num(2), Num(9));
    CostOneRobot(strategy, Num(9), Activate);
    assert CostSeq(strategy, 1, Num(9), keys[3..]) == 4;
    assert CostSeq(strategy, 1, Num(2), keys[2..]) == 8;
    assert CostSeq(strategy, 1, Num(0), keys[1..]) == 10;
  }
}
