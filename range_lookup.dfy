/**
 * RangeLookup: a set of covered integers kept as disjoint half-open ranges
 * [start, end). The ordered table maps both the start and the end of every
 * range to that range's element, so a point query is one upper_bound.
 *
 * The std::map is a sequence of entries with strictly increasing keys; the
 * shared pointer held under both keys of a range is the element value held
 * by both entries (no other range can hold an equal element, since element
 * starts are distinct keys).
 */
module RangeLookups {

  /** The range [start, end). */
  datatype RangeElement = RangeElement(start: int, end: int)
  {
    function Length(): int { end - start }
  }

  datatype ElementResult = Element(elt: RangeElement) | DomainError

  /** The RangeElement constructor refuses empty and inverted ranges. */
  function MakeRangeElement(start: int, end: int): (r: ElementResult)
    ensures r.DomainError? <==> end <= start
    ensures r.Element? ==> r.elt.start == start && r.elt.end == end && r.elt.Length() > 0
  {
    if end <= start then DomainError else Element(RangeElement(start, end))
  }

  /** One entry of the ordered table: a key and the element stored under it. */
  datatype Entry = Entry(key: int, elt: RangeElement)

  /** Keys strictly increase, as in any std::map: each key is below the next. */
  ghost predicate StrictlySorted(t: seq<Entry>)
    decreases |t|
  {
    |t| <= 1 || (t[0].key < t[1].key && StrictlySorted(t[1..]))
  }

  /** Every key is below every later key. */
  ghost predicate KeysIncrease(t: seq<Entry>)
  {
    forall i, j :: 0 <= i < j < |t| ==> t[i].key < t[j].key
  }

  lemma {:induction false} SortedPairs(t: seq<Entry>)
    ensures StrictlySorted(t) <==> KeysIncrease(t)
    decreases |t|
  {
    if |t| > 1 {
      var u := t[1..];
      SortedPairs(u);
      assert forall i :: 0 <= i < |u| ==> u[i] == t[i + 1];
      if StrictlySorted(t) {
        forall i, j | 0 <= i < j < |t|
          ensures t[i].key < t[j].key
        {
          if i > 0 {
            assert u[i - 1].key < u[j - 1].key;
          } else if j > 1 {
            assert u[0].key < u[j - 1].key;
          }
        }
      }
      if KeysIncrease(t) {
        assert KeysIncrease(u);
      }
    }
  }

  /** A start entry followed by the end entry of the same element. */
  predicate IsPair(a: Entry, b: Entry)
  {
    a.key == a.elt.start && b.key == b.elt.end && a.elt == b.elt
  }

  /** From the front, the entries pair up as the start and end of one range each. */
  ghost predicate Paired(t: seq<Entry>)
    decreases |t|
  {
    |t| == 0 || (|t| >= 2 && IsPair(t[0], t[1]) && Paired(t[2..]))
  }

  /** The class invariant: disjoint, non-touching ranges, each stored under its two ends. */
  ghost predicate ValidTable(t: seq<Entry>)
  {
    StrictlySorted(t) && Paired(t)
  }

  /** The integers of [s, e). */
  function RangeSet(s: int, e: int): (r: set<int>)
    ensures forall x :: x in r <==> s <= x < e
    decreases e - s
  {
    if e <= s then {} else RangeSet(s, e - 1) + {e - 1}
  }

  /** The points covered by the ranges of a table. */
  ghost function CoveredSet(t: seq<Entry>): set<int>
    decreases |t|
  {
    if |t| < 2 then {} else RangeSet(t[0].key, t[1].key) + CoveredSet(t[2..])
  }

  /** The sum of the lengths of the elements stored under their start key. */
  function StartLengths(t: seq<Entry>): int
    decreases |t|
  {
    if |t| == 0 then 0
    else (if t[0].key == t[0].elt.start then t[0].elt.Length() else 0) + StartLengths(t[1..])
  }

  /** x lies between the keys of the pair starting at entry j. */
  ghost predicate InPair(t: seq<Entry>, j: int, x: int)
  {
    0 <= j && j + 1 < |t| && j % 2 == 0 && t[j].key <= x < t[j + 1].key
  }

  /** The range at entry si has its end entry right after it. */
  predicate HasEnd(t: seq<Entry>, si: nat)
    requires si < |t|
  {
    si + 1 < |t| && t[si + 1] == Entry(t[si].elt.end, t[si].elt)
  }

  /** The entries after the range at si (and after its end entry, if present). */
  function RestAfter(t: seq<Entry>, si: nat): seq<Entry>
    requires si < |t|
  {
    if HasEnd(t, si) then t[si + 2..] else t[si + 1..]
  }

  /** map::lower_bound: the first entry whose key is not less than x. */
  function LowerBound(t: seq<Entry>, x: int): (r: nat)
    ensures r <= |t|
    ensures forall j :: 0 <= j < r ==> t[j].key < x
    ensures r < |t| ==> t[r].key >= x
    decreases |t|
  {
    if |t| == 0 || t[0].key >= x then 0 else 1 + LowerBound(t[1..], x)
  }

  /** map::upper_bound: the first entry whose key is greater than x. */
  function UpperBound(t: seq<Entry>, x: int): (r: nat)
    ensures r <= |t|
    ensures forall j :: 0 <= j < r ==> t[j].key <= x
    ensures r < |t| ==> t[r].key > x
    decreases |t|
  {
    if |t| == 0 || t[0].key > x then 0 else 1 + UpperBound(t[1..], x)
  }

  /** map::find: the entry with key x, or the end position. */
  function Find(t: seq<Entry>, x: int): (r: nat)
    ensures r <= |t|
    ensures r < |t| ==> t[r].key == x
    ensures forall j :: 0 <= j < r ==> t[j].key != x
    decreases |t|
  {
    if |t| == 0 then 0 else if t[0].key == x then 0 else 1 + Find(t[1..], x)
  }

  lemma FindSorted(t: seq<Entry>, j: int)
    requires StrictlySorted(t) && 0 <= j < |t|
    ensures Find(t, t[j].key) == j
  {
    SortedPairs(t);
  }

  lemma {:induction false} PairedConcat(p: seq<Entry>, q: seq<Entry>)
    requires Paired(p) && Paired(q)
    ensures Paired(p + q)
    decreases |p|
  {
    if |p| == 0 {
      assert p + q == q;
    } else {
      assert (p + q)[2..] == p[2..] + q;
      PairedConcat(p[2..], q);
    }
  }

  lemma {:induction false} CoveredConcat(p: seq<Entry>, q: seq<Entry>)
    requires Paired(p)
    ensures CoveredSet(p + q) == CoveredSet(p) + CoveredSet(q)
    decreases |p|
  {
    if |p| == 0 {
      assert p + q == q;
    } else {
      assert (p + q)[2..] == p[2..] + q;
      CoveredConcat(p[2..], q);
    }
  }

  /** Two valid tables, every key of the first below every key of the second, join into one. */
  lemma ValidJoin(p: seq<Entry>, q: seq<Entry>)
    requires ValidTable(p) && ValidTable(q)
    requires forall i, j :: 0 <= i < |p| && 0 <= j < |q| ==> p[i].key < q[j].key
    ensures ValidTable(p + q)
    ensures CoveredSet(p + q) == CoveredSet(p) + CoveredSet(q)
  {
    SortedPairs(p);
    SortedPairs(q);
    SortedPairs(p + q);
    PairedConcat(p, q);
    CoveredConcat(p, q);
    var t := p + q;
    forall i, j | 0 <= i < j < |t|
      ensures t[i].key < t[j].key
    {
      if j < |p| {
        assert t[i] == p[i] && t[j] == p[j];
      } else if i >= |p| {
        assert t[i] == q[i - |p|] && t[j] == q[j - |p|];
      } else {
        assert t[i] == p[i] && t[j] == q[j - |p|];
      }
    }
  }

  lemma SortedSlice(t: seq<Entry>, a: nat, b: nat)
    requires StrictlySorted(t) && a <= b <= |t|
    ensures StrictlySorted(t[a..b])
  {
    SortedPairs(t);
    SortedPairs(t[a..b]);
    forall i, j | 0 <= i < j < b - a
      ensures t[a..b][i].key < t[a..b][j].key
    {
      assert t[a..b][i] == t[a + i] && t[a..b][j] == t[a + j];
    }
  }

  lemma ValidTail(t: seq<Entry>)
    requires ValidTable(t) && |t| >= 2
    ensures ValidTable(t[2..]) && IsPair(t[0], t[1])
  {
    assert StrictlySorted(t[1..]);
    assert t[1..][1..] == t[2..];
  }

  /** Cutting a paired table at an even position leaves two paired tables. */
  lemma {:induction false} PairedSplit(t: seq<Entry>, k: nat)
    requires Paired(t) && k <= |t| && k % 2 == 0
    ensures Paired(t[..k]) && Paired(t[k..])
    ensures CoveredSet(t) == CoveredSet(t[..k]) + CoveredSet(t[k..])
    decreases k
  {
    if k == 0 {
      assert t[k..] == t;
    } else {
      PairedSplit(t[2..], k - 2);
      assert t[2..][..k - 2] == t[..k][2..];
      assert t[2..][k - 2..] == t[k..];
      assert t[..k][0] == t[0] && t[..k][1] == t[1];
    }
  }

  /** Cutting a valid table at an even position leaves two valid tables. */
  lemma ValidSplit(t: seq<Entry>, k: nat)
    requires ValidTable(t) && k <= |t| && k % 2 == 0
    ensures ValidTable(t[..k]) && ValidTable(t[k..])
    ensures CoveredSet(t) == CoveredSet(t[..k]) + CoveredSet(t[k..])
  {
    PairedSplit(t, k);
    SortedSlice(t, 0, k);
    SortedSlice(t, k, |t|);
    assert t[0..k] == t[..k] && t[k..|t|] == t[k..];
  }

  /** A point is covered exactly when it lies inside some start/end pair. */
  lemma {:induction false} CoveredWitness(t: seq<Entry>, x: int)
    requires Paired(t)
    ensures x in CoveredSet(t) <==> exists j :: InPair(t, j, x)
    decreases |t|
  {
    if |t| >= 2 {
      CoveredWitness(t[2..], x);
      if t[0].key <= x < t[1].key {
        assert InPair(t, 0, x);
      }
      if x in CoveredSet(t[2..]) {
        var j :| InPair(t[2..], j, x);
        assert InPair(t, j + 2, x);
      }
      if exists j :: InPair(t, j, x) {
        var j :| InPair(t, j, x);
        if j >= 2 {
          assert InPair(t[2..], j - 2, x);
        }
      }
    }
  }

  /** In a valid table the start entries sit at even positions and the end entries at odd ones. */
  lemma {:induction false} EntryKinds(t: seq<Entry>, j: int)
    requires ValidTable(t) && 0 <= j < |t|
    ensures j % 2 == 0 ==> j + 1 < |t| && IsPair(t[j], t[j + 1])
    ensures j % 2 == 1 ==> IsPair(t[j - 1], t[j])
    ensures t[j].key == t[j].elt.start <==> j % 2 == 0
    ensures t[j].key == t[j].elt.end <==> j % 2 == 1
    decreases j
  {
    ValidTail(t);
    if j >= 2 {
      EntryKinds(t[2..], j - 2);
    } else {
      assert t[0].key < t[1].key;
    }
  }

  /** The covered set has as many points as the start entries' lengths add up to. */
  lemma {:induction false} CountIsCardinality(t: seq<Entry>)
    requires ValidTable(t)
    ensures StartLengths(t) == |CoveredSet(t)|
    decreases |t|
  {
    SortedPairs(t);
    if |t| >= 2 {
      ValidTail(t);
      EntryKinds(t, 1);
      CountIsCardinality(t[2..]);
      assert t[1..][1..] == t[2..];
      var a, b := t[0].key, t[1].key;
      RangeSetSize(a, b);
      forall x | x in CoveredSet(t[2..])
        ensures x >= b
      {
        CoveredWitness(t[2..], x);
        var j :| InPair(t[2..], j, x);
        assert t[2..][j] == t[j + 2];
      }
      assert RangeSet(a, b) * CoveredSet(t[2..]) == {};
    }
  }

  lemma {:induction false} RangeSetSize(s: int, e: int)
    requires s <= e
    ensures |RangeSet(s, e)| == e - s
    decreases e - s
  {
    if s < e {
      RangeSetSize(s, e - 1);
    }
  }

  /** Two overlapping or touching ranges (the second starting inside the first) join into one. */
  lemma RangeUnion(s: int, e: int, a: int, b: int)
    requires s <= a <= e
    ensures RangeSet(s, e) + RangeSet(a, b) == RangeSet(s, if b > e then b else e)
  {
  }

  /** Adding a middle part between the tables either side of it. */
  lemma UnionInsert(a: set<int>, b: set<int>, c: set<int>)
    ensures a + (b + c) == (a + c) + b
  {
  }

  /** Growing the middle range by a part that overlaps or touches it. */
  lemma UnionMerge(a: set<int>, b1: set<int>, b2: set<int>, b: set<int>, c: set<int>)
    requires b1 + b2 == b
    ensures a + (b + c) == (a + (b1 + c)) + b2
  {
  }

  /** A part already inside the middle range adds nothing. */
  lemma UnionAbsorb(a: set<int>, b1: set<int>, b2: set<int>, c: set<int>)
    requires b1 + b2 == b1
    ensures a + (b1 + c) == (a + (b1 + c)) + b2
  {
  }

  /** is_covered's upper_bound test: the next key after x is an end key exactly when x is covered. */
  lemma UpperBoundLocates(t: seq<Entry>, x: int)
    requires ValidTable(t)
    ensures var ub := UpperBound(t, x);
      x in CoveredSet(t) <==> ub < |t| && t[ub].key == t[ub].elt.end
  {
    var ub := UpperBound(t, x);
    if ub < |t| {
      EntryKinds(t, ub);
      KeysAbove(t, ub, x);
    }
    if ub < |t| && ub % 2 == 1 {
      CoveredAt(t, ub - 1, x);
    } else {
      PairedParity(t);
      NotCoveredBetween(t, ub, x);
    }
  }

  /** Keys after a key above x are above x too. */
  lemma KeysAbove(t: seq<Entry>, k: nat, x: int)
    requires StrictlySorted(t) && k < |t| && t[k].key > x
    ensures forall j :: k <= j < |t| ==> t[j].key > x
  {
    SortedPairs(t);
    forall j | k < j < |t|
      ensures t[j].key > x
    {
      assert t[k].key < t[j].key;
    }
  }

  /** A point inside the pair at the even position j is covered. */
  lemma CoveredAt(t: seq<Entry>, j: nat, x: int)
    requires Paired(t) && j % 2 == 0 && j + 1 < |t| && t[j].key <= x < t[j + 1].key
    ensures x in CoveredSet(t)
  {
    CoveredWitness(t, x);
    assert InPair(t, j, x);
  }

  /** The table entries of the sequence index j and after all carry elements starting after x. */
  lemma ElementsAfter(t: seq<Entry>, k: nat, x: int)
    requires ValidTable(t) && k <= |t| && k % 2 == 0
    requires forall j :: k <= j < |t| ==> t[j].key > x
    ensures forall j :: k <= j < |t| ==> t[j].elt.start > x
  {
    forall j | k <= j < |t|
      ensures t[j].elt.start > x
    {
      EntryKinds(t, j);
    }
  }

  /** One entry of check_invariants: a start key is followed by its end, an end key preceded by its start. */
  predicate EntryConsistent(t: seq<Entry>, j: int)
    requires 0 <= j < |t|
  {
    if t[j].key == t[j].elt.start then
      j + 1 < |t| && t[j + 1].key == t[j].elt.end && t[j + 1].elt == t[j].elt
    else
      j >= 1 && t[j - 1].key == t[j].elt.start && t[j - 1].elt == t[j].elt
  }

  /** The entry-by-entry checks together with an even size are exactly the pairing invariant. */
  lemma {:induction false} ConsistentIffPaired(t: seq<Entry>)
    requires StrictlySorted(t)
    ensures (|t| % 2 == 0 && forall j :: 0 <= j < |t| ==> EntryConsistent(t, j)) <==> Paired(t)
    decreases |t|
  {
    if |t| >= 2 {
      var u := t[2..];
      assert StrictlySorted(u) by {
        assert t[1..][1..] == u;
      }
      ConsistentIffPaired(u);
      if Paired(t) {
        forall j | 0 <= j < |t|
          ensures EntryConsistent(t, j)
        {
          EntryKinds(t, j);
        }
      }
      if |t| % 2 == 0 && forall j :: 0 <= j < |t| ==> EntryConsistent(t, j) {
        assert EntryConsistent(t, 0);
        assert IsPair(t[0], t[1]);
        forall j | 0 <= j < |u|
          ensures EntryConsistent(u, j)
        {
          assert EntryConsistent(t, j + 2);
          if j == 0 {
            // t[1] holds t[0]'s element under its larger end key, so u[0] cannot be an end key
            assert t[0].key < t[1].key;
          }
        }
      }
    } else if |t| == 1 {
      assert !EntryConsistent(t, 0) by {
        if t[0].key != t[0].elt.start {
        }
      }
    }
  }

  /**
   * What expand_range relies on at the start entry si: the keys are sorted,
   * the entries before si and after the range are paired, and the range's
   * end entry either follows it or appears nowhere (as after
   * create_new_range).
   */
  ghost predicate ExpandReady(t: seq<Entry>, si: nat)
  {
    && StrictlySorted(t)
    && si < |t|
    && Paired(t[..si])
    && t[si].key == t[si].elt.start < t[si].elt.end
    && Paired(RestAfter(t, si))
    && (!HasEnd(t, si) ==> forall j :: si < j < |t| ==> t[j].elt != t[si].elt)
  }

  /** The table around the range whose start entry sits at si, as expand_range sees it. */
  lemma ExpandSetup(t: seq<Entry>, si: nat)
    requires StrictlySorted(t) && si < |t| && Paired(t[..si]) && Paired(RestAfter(t, si))
    requires t[si].key == t[si].elt.start < t[si].elt.end
    ensures ValidTable(t[..si]) && AllBelow(t[..si], t[si].key)
    ensures ValidTable(RestAfter(t, si)) && AllAbove(RestAfter(t, si), t[si].key)
    ensures HasEnd(t, si) ==> t == t[..si] + [t[si], t[si + 1]] + RestAfter(t, si)
    ensures HasEnd(t, si) ==> |RestAfter(t, si)| == 0 || RestAfter(t, si)[0].key > t[si].elt.end
  {
    if HasEnd(t, si) {
      SplitWithEnd(t, si);
    } else {
      SplitWithoutEnd(t, si);
    }
  }

  /**
   * expand_range's first step: find the range's end key and erase it when
   * it belongs to this range, leaving the start entry directly followed by
   * the entries after the range.
   */
  method EraseOwnEnd(t: seq<Entry>, si: nat) returns (r: seq<Entry>)
    requires StrictlySorted(t) && si < |t| && t[si].key < t[si].elt.end
    requires !HasEnd(t, si) ==> forall j :: si < j < |t| ==> t[j].elt != t[si].elt
    ensures r == t[..si + 1] + RestAfter(t, si)
  {
    var elt := t[si].elt;
    if HasEnd(t, si) {
      SplitWithEnd(t, si);
    } else {
      SplitWithoutEnd(t, si);
    }
    var endIdx := Find(t, elt.end);
    r := t;
    if endIdx < |t| && t[endIdx].elt == elt {
      // the range's own end entry
      r := t[..endIdx] + t[endIdx + 1..];
    }
  }

  /**
   * expand_range's loop, on the entries that follow the grown range
   * [s, newEnd): while the next key lies at or before the current end, the
   * range starting there is erased (start and end entry), and the end moves
   * to that range's end when it reaches further. Only leading ranges are
   * erased, and together with the grown range the same points stay covered.
   */
  method AbsorbFollowing(q0: seq<Entry>, s: int, newEnd: int) returns (q: seq<Entry>, ne: int)
    requires ValidTable(q0) && AllAbove(q0, s) && s < newEnd
    ensures newEnd <= ne && ValidTable(q) && (|q| == 0 || q[0].key > ne)
    ensures |q| <= |q0| && q == q0[|q0| - |q|..]
    ensures RangeSet(s, ne) + CoveredSet(q) == RangeSet(s, newEnd) + CoveredSet(q0)
    ensures (|q0| == 0 || q0[0].key > newEnd) ==> q == q0 && ne == newEnd
  {
    q, ne := q0, newEnd;
    while |q| > 0 && q[0].key <= ne
      invariant ValidTable(q) && AllAbove(q, s) && newEnd <= ne
      invariant |q| <= |q0| && q == q0[|q0| - |q|..]
      invariant RangeSet(s, ne) + CoveredSet(q) == RangeSet(s, newEnd) + CoveredSet(q0)
      invariant (|q0| == 0 || q0[0].key > newEnd) ==> q == q0 && ne == newEnd
      decreases |q|
    {
      AbsorbStep(q, s, ne);
      if q[0].elt.end > ne {
        ne := q[0].elt.end;
      }
      q := q[2..];
    }
  }

  class RangeLookup {
    /** The ordered table of start and end keys. */
    var table: seq<Entry>

    ghost predicate Valid()
      reads this
    {
      ValidTable(table)
    }

    ghost function Covered(): set<int>
      reads this
    {
      CoveredSet(table)
    }

    constructor ()
      ensures table == [] && Valid() && Covered() == {}
    {
      table := [];
    }

    /**
     * create_new_range: emplace the one-point range [start, start+1) under
     * start; when start is already a key the table is left alone and that
     * key's position is returned.
     */
    method CreateNewRange(start: int) returns (idx: nat)
      modifies this
      ensures idx == LowerBound(old(table), start)
      ensures idx < |old(table)| && old(table)[idx].key == start ==> table == old(table)
      ensures !(idx < |old(table)| && old(table)[idx].key == start) ==>
        table == old(table)[..idx] + [Entry(start, RangeElement(start, start + 1))] + old(table)[idx..]
    {
      idx := LowerBound(table, start);
      if idx < |table| && table[idx].key == start {
        return;
      }
      table := table[..idx] + [Entry(start, RangeElement(start, start + 1))] + table[idx..];
    }

    /**
     * expand_range: move the end of the range at si to newEnd, dropping the
     * ranges it swallows and merging with one it overlaps or touches. A
     * newEnd below the current end changes nothing; otherwise the range
     * covers [start, newEnd) plus whatever it merged with.
     */
    method ExpandRange(si: nat, newEnd: int)
      requires ExpandReady(table, si)
      modifies this
      ensures newEnd < old(table)[si].elt.end ==> table == old(table)
      ensures HasEnd(old(table), si) && newEnd == old(table)[si].elt.end ==> table == old(table)
      ensures newEnd >= old(table)[si].elt.end ==>
        && ValidTable(table)
        && CoveredSet(table) == CoveredSet(old(table)[..si])
             + (RangeSet(old(table)[si].key, newEnd) + CoveredSet(RestAfter(old(table), si)))
    {
      var elt := table[si].elt;
      var s := elt.start;
      if newEnd < elt.end {
        return;
      }
      ghost var P := table[..si];
      ghost var R := RestAfter(table, si);
      ExpandSetup(table, si);
      var t := EraseOwnEnd(table, si);
      t := t[si := Entry(s, RangeElement(s, newEnd))];
      ReplaceMiddle(P, Entry(s, RangeElement(s, newEnd)), R, []);
      assert t[..si] == P && t[si + 1..] == R;
      var q, ne := AbsorbFollowing(t[si + 1..], s, newEnd);
      // elt->end = new_end, and the end key is emplaced right after the start key
      t := t[..si] + [Entry(s, RangeElement(s, ne)), Entry(ne, RangeElement(s, ne))] + q;
      table := t;
      CloseRange(P, s, ne, q);
    }

    /**
     * add_range as written: locate start with lower_bound, then either
     * create a one-point range at start and grow it to end, or grow the
     * range that contains or ends at start, and finish with
     * check_invariants, whose first assertion (kept in every build) needs an
     * even number of keys. `ok` is false exactly when that assertion fails
     * and the program aborts. For start < end the covered set gains exactly
     * [start, end); an empty or inverted range that falls outside every
     * range leaves a lone start key behind, and the closing check aborts.
     */
    method AddRangeAsWritten(start: int, end: int) returns (ok: bool)
      requires Valid()
      modifies this
      ensures ok <==> |table| % 2 == 0
      ensures start < end ==> ok && Valid() && Covered() == old(Covered()) + RangeSet(start, end)
      ensures RangeSet(start, end) <= old(Covered()) && start in old(Covered()) ==> ok && table == old(table)
      ensures end <= start && start !in old(Covered()) && Find(old(table), start) == |old(table)| ==>
        && !ok
        && table == old(table)[..LowerBound(old(table), start)]
             + [Entry(start, RangeElement(start, start + 1))] + old(table)[LowerBound(old(table), start)..]
      ensures end <= start && (start in old(Covered()) || Find(old(table), start) < |old(table)|) ==>
        ok && table == old(table)
    {
      PairedParity(table);
      var lb := LowerBound(table, start);
      if lb == |table| || (table[lb].key == table[lb].elt.start && table[lb].key != start) {
        AddAtNewStart(start, end, lb);
      } else {
        AddToExistingRange(start, end, lb);
      }
      if Valid() {
        PairedParity(table);
      }
      ok := |table| % 2 == 0;
    }

    /**
     * add_range's first branch: start lies outside every range and is no
     * key, so a one-point range is created at start and grown to end.
     */
    method AddAtNewStart(start: int, end: int, lb: nat)
      requires Valid() && lb == LowerBound(table, start)
      requires lb == |table| || (table[lb].key == table[lb].elt.start && table[lb].key != start)
      modifies this
      ensures start !in old(Covered()) && Find(old(table), start) == |old(table)|
      ensures start < end ==> Valid() && Covered() == old(Covered()) + RangeSet(start, end)
      ensures end <= start ==>
        && !Valid()
        && table == old(table)[..lb] + [Entry(start, RangeElement(start, start + 1))] + old(table)[lb..]
    {
      ghost var t := table;
      NewRangePosition(t, start);
      ghost var u := t[..lb] + [Entry(start, RangeElement(start, start + 1))] + t[lb..];
      NewRangeSetup(t, start, lb, u);
      var si := CreateNewRange(start);
      assert si == lb && table == u;
      ExpandRange(si, end);
      if start < end {
        UnionInsert(CoveredSet(u[..lb]), RangeSet(start, end), CoveredSet(RestAfter(u, lb)));
      }
    }

    /**
     * add_range's second branch: start lies in, or at the end of, the
     * range found through the element of the entry at lb; that range is
     * grown to end.
     */
    method AddToExistingRange(start: int, end: int, lb: nat)
      requires Valid() && lb == LowerBound(table, start)
      requires lb < |table| && !(table[lb].key == table[lb].elt.start && table[lb].key != start)
      modifies this
      ensures start in old(Covered()) || Find(old(table), start) < |old(table)|
      ensures start < end ==> Valid() && Covered() == old(Covered()) + RangeSet(start, end)
      ensures RangeSet(start, end) <= old(Covered()) ==> table == old(table)
      ensures end <= start ==> table == old(table)
    {
      ghost var t := table;
      ExistingRangePosition(t, start);
      var si := Find(table, table[lb].elt.start);
      RangeAt(t, si);
      ghost var sk, ek := t[si].key, t[si].elt.end;
      ghost var A, C := CoveredSet(t[..si]), CoveredSet(t[si + 2..]);
      RangeUnion(sk, ek, start, end);
      if end > ek {
        assert ek in RangeSet(start, end);
      }
      ExpandRange(si, end);
      if end >= ek {
        assert Covered() == A + (RangeSet(sk, end) + C);
        UnionMerge(A, RangeSet(sk, ek), RangeSet(start, end), RangeSet(sk, end), C);
      } else {
        UnionAbsorb(A, RangeSet(sk, ek), RangeSet(start, end), C);
      }
    }

    /**
     * add_range with empty and inverted ranges refused the way the element
     * constructor refuses them: the table is left alone and false returned.
     * Otherwise the covered set gains exactly [start, end), and adding a
     * range that is already covered leaves the table untouched.
     */
    method AddRange(start: int, end: int) returns (ok: bool)
      requires Valid()
      modifies this
      ensures ok <==> start < end
      ensures Valid()
      ensures Covered() == old(Covered()) + RangeSet(start, end)
      ensures RangeSet(start, end) <= old(Covered()) ==> table == old(table)
    {
      if end <= start {
        return false;
      }
      assert start in RangeSet(start, end);
      ok := AddRangeAsWritten(start, end);
    }

    /** count_covered: the lengths of the ranges, read off their start entries. */
    method CountCovered() returns (count: int)
      ensures count == StartLengths(table)
    {
      count := 0;
      var i := 0;
      while i < |table|
        invariant 0 <= i <= |table|
        invariant count + StartLengths(table[i..]) == StartLengths(table)
      {
        assert table[i..][1..] == table[i + 1..];
        if table[i].key == table[i].elt.start {
          count := count + table[i].elt.Length();
        }
        i := i + 1;
      }
    }

    /** is_covered: index is covered exactly when the next key after it closes a range. */
    function IsCovered(index: int): (r: bool)
      reads this
      requires Valid()
      ensures r <==> index in Covered()
    {
      UpperBoundLocates(table, index);
      var ub := UpperBound(table, index);
      ub < |table| && table[ub].key == table[ub].elt.end
    }

    /**
     * check_invariants with the debug checks on: an even number of keys and
     * every entry paired with its partner. (The adjacency and find checks
     * hold of every std::map.)
     */
    method CheckInvariants() returns (ok: bool)
      requires StrictlySorted(table)
      ensures ok <==> Valid()
    {
      ok := |table| % 2 == 0;
      var i := 0;
      while i < |table|
        invariant 0 <= i <= |table|
        invariant ok <==> |table| % 2 == 0 && forall j :: 0 <= j < i ==> EntryConsistent(table, j)
      {
        var entry := table[i];
        var consistent;
        if entry.key == entry.elt.start {
          consistent := i + 1 < |table| && table[i + 1].key == entry.elt.end && table[i + 1].elt == entry.elt;
        } else {
          consistent := i >= 1 && table[i - 1].key == entry.elt.start && table[i - 1].elt == entry.elt;
        }
        assert consistent == EntryConsistent(table, i);
        ok := ok && consistent;
        i := i + 1;
      }
      ConsistentIffPaired(table);
    }
  }

  lemma {:induction false} PairedParity(t: seq<Entry>)
    requires Paired(t)
    ensures |t| % 2 == 0
    decreases |t|
  {
    if |t| > 0 {
      PairedParity(t[2..]);
    }
  }

  /** No range covers the end key of a range. */
  lemma EndNotCovered(t: seq<Entry>, k: int)
    requires ValidTable(t) && 0 <= k < |t| && k % 2 == 1
    ensures t[k].key !in CoveredSet(t)
  {
    SortedPairs(t);
    CoveredWitness(t, t[k].key);
  }

  ghost predicate AllAbove(q: seq<Entry>, x: int)
  {
    forall j :: 0 <= j < |q| ==> q[j].key > x
  }

  ghost predicate AllBelow(q: seq<Entry>, x: int)
  {
    forall j :: 0 <= j < |q| ==> q[j].key < x
  }

  /** Cutting a sequence around position si and gluing it back. */
  lemma Around(t: seq<Entry>, si: nat)
    requires si < |t|
    ensures t == t[..si] + [t[si]] + t[si + 1..]
    ensures si + 1 < |t| ==> t == t[..si] + [t[si], t[si + 1]] + t[si + 2..]
    ensures si + 1 < |t| ==> t[..si + 1] + t[si + 2..] == t[..si] + [t[si]] + t[si + 2..]
  {
  }

  /** The keys before position a lie below t[a].key, those from position a on above t[a - 1].key. */
  lemma SortedCut(t: seq<Entry>, a: nat)
    requires StrictlySorted(t) && a <= |t|
    ensures StrictlySorted(t[..a]) && StrictlySorted(t[a..])
    ensures a < |t| ==> AllBelow(t[..a], t[a].key)
    ensures 0 < a ==> AllAbove(t[a..], t[a - 1].key)
  {
    SortedSlice(t, 0, a);
    SortedSlice(t, a, |t|);
    assert t[0..a] == t[..a] && t[a..|t|] == t[a..];
    SortedPairs(t);
    if a < |t| {
      forall j | 0 <= j < a
        ensures t[..a][j].key < t[a].key
      {
        assert t[..a][j] == t[j];
      }
    }
    if 0 < a {
      forall j | 0 <= j < |t| - a
        ensures t[a..][j].key > t[a - 1].key
      {
        assert t[a..][j] == t[a + j];
      }
    }
  }

  /** The pieces of the table around a range whose end entry follows it. */
  lemma SplitWithEnd(t: seq<Entry>, si: nat)
    requires StrictlySorted(t) && si < |t| && HasEnd(t, si)
    ensures StrictlySorted(t[..si]) && AllBelow(t[..si], t[si].key)
    ensures StrictlySorted(t[si + 2..]) && AllAbove(t[si + 2..], t[si].elt.end)
    ensures Find(t, t[si].elt.end) == si + 1
    ensures t == t[..si] + [t[si], t[si + 1]] + t[si + 2..]
    ensures t[..si + 1] + t[si + 2..] == t[..si] + [t[si]] + t[si + 2..]
  {
    Around(t, si);
    SortedCut(t, si);
    SortedCut(t, si + 2);
    FindSorted(t, si + 1);
  }

  /** The pieces of the table around a range with no end entry after it. */
  lemma SplitWithoutEnd(t: seq<Entry>, si: nat)
    requires StrictlySorted(t) && si < |t| && t[si].key < t[si].elt.end
    ensures StrictlySorted(t[..si]) && AllBelow(t[..si], t[si].key)
    ensures StrictlySorted(t[si + 1..]) && AllAbove(t[si + 1..], t[si].key)
    ensures Find(t, t[si].elt.end) > si
    ensures t == t[..si] + [t[si]] + t[si + 1..]
  {
    Around(t, si);
    SortedCut(t, si);
    SortedCut(t, si + 1);
    SortedPairs(t);
    forall j | 0 <= j <= si
      ensures t[j].key < t[si].elt.end
    {
      if j < si {
        assert t[j].key < t[si].key;
      }
    }
  }

  /** Replacing the middle entry by a run of entries. */
  lemma ReplaceMiddle(p: seq<Entry>, x: Entry, q: seq<Entry>, m: seq<Entry>)
    ensures var t := p + [x] + q;
      && |t| == |p| + 1 + |q| && (|q| > 0 ==> t[|p| + 1] == q[0])
      && t[..|p|] + m + t[|p| + 1..] == p + m + q
  {
    var t := p + [x] + q;
    assert t[..|p|] == p;
    assert t[|p| + 1..] == q;
  }

  /** One step of expand_range's loop: the next range, starting at or before ne, is absorbed. */
  lemma AbsorbStep(q: seq<Entry>, s: int, ne: int)
    requires ValidTable(q) && AllAbove(q, s) && |q| > 0 && q[0].key <= ne
    ensures |q| >= 2 && q[1].key == q[0].elt.end
    ensures ValidTable(q[2..]) && AllAbove(q[2..], s)
    ensures RangeSet(s, if q[0].elt.end > ne then q[0].elt.end else ne) + CoveredSet(q[2..])
         == RangeSet(s, ne) + CoveredSet(q)
  {
    ValidTail(q);
    RangeUnion(s, ne, q[0].key, q[1].key);
    assert forall j :: 0 <= j < |q[2..]| ==> q[2..][j] == q[j + 2];
  }

  /** The end of expand_range: the grown range with its end key sits between what lies below and above. */
  lemma CloseRange(p: seq<Entry>, s: int, ne: int, q: seq<Entry>)
    requires ValidTable(p) && AllBelow(p, s) && s < ne
    requires ValidTable(q) && (|q| == 0 || q[0].key > ne)
    ensures var m := [Entry(s, RangeElement(s, ne)), Entry(ne, RangeElement(s, ne))];
      && ValidTable(p + m + q)
      && CoveredSet(p + m + q) == CoveredSet(p) + (RangeSet(s, ne) + CoveredSet(q))
  {
    SortedPairs(q);
    var m := [Entry(s, RangeElement(s, ne)), Entry(ne, RangeElement(s, ne))];
    assert m[2..] == [];
    assert Paired(m);
    ValidJoin(p, m);
    forall i, j | 0 <= i < |p + m| && 0 <= j < |q|
      ensures (p + m)[i].key < q[j].key
    {
      assert q[j].key >= q[0].key;
      if i < |p| {
        assert (p + m)[i] == p[i];
      }
    }
    ValidJoin(p + m, q);
  }

  /** Inserting an entry at its sorted position keeps the keys strictly increasing. */
  lemma InsertSorted(t: seq<Entry>, lb: nat, e: Entry)
    requires StrictlySorted(t) && lb <= |t|
    requires forall j :: 0 <= j < lb ==> t[j].key < e.key
    requires forall j :: lb <= j < |t| ==> t[j].key > e.key
    ensures var u := t[..lb] + [e] + t[lb..];
      && StrictlySorted(u) && |u| == |t| + 1 && u[..lb] == t[..lb] && u[lb] == e && u[lb + 1..] == t[lb..]
      && (forall j :: lb < j < |u| ==> u[j] == t[j - 1])
  {
    SortedPairs(t);
    SortedPairs(t[..lb] + [e] + t[lb..]);
    var u := t[..lb] + [e] + t[lb..];
    assert forall j :: 0 <= j < lb ==> u[j] == t[j];
    assert forall j :: lb < j < |u| ==> u[j] == t[j - 1];
    forall i, j | 0 <= i < j < |u|
      ensures u[i].key < u[j].key
    {
      if j < lb {
        assert u[i] == t[i] && u[j] == t[j];
      } else if lb < i {
        assert u[i] == t[i - 1] && u[j] == t[j - 1];
      }
    }
    assert u[lb + 1..] == t[lb..];
  }

  /** add_range's create branch: start is no key and lies outside every range. */
  lemma NewRangePosition(t: seq<Entry>, start: int)
    requires ValidTable(t)
    requires var lb := LowerBound(t, start);
      lb == |t| || (t[lb].key == t[lb].elt.start && t[lb].key != start)
    ensures var lb := LowerBound(t, start);
      && lb % 2 == 0 && |t| % 2 == 0
      && (forall j :: lb <= j < |t| ==> t[j].key > start)
      && start !in CoveredSet(t) && Find(t, start) == |t|
  {
    var lb := LowerBound(t, start);
    PairedParity(t);
    if lb < |t| {
      EntryKinds(t, lb);
      KeysAbove(t, lb, start);
    }
    NotCoveredBetween(t, lb, start);
  }

  /** add_range's create branch: the table with the one-point range at start emplaced at lb. */
  lemma NewRangeSetup(t: seq<Entry>, start: int, lb: nat, u: seq<Entry>)
    requires ValidTable(t) && lb <= |t| && lb % 2 == 0
    requires forall j :: 0 <= j < lb ==> t[j].key < start
    requires forall j :: lb <= j < |t| ==> t[j].key > start
    requires u == t[..lb] + [Entry(start, RangeElement(start, start + 1))] + t[lb..]
    ensures lb < |u| == |t| + 1 && u[lb] == Entry(start, RangeElement(start, start + 1))
    ensures ExpandReady(u, lb) && !HasEnd(u, lb) && !Paired(u)
    ensures CoveredSet(t) == CoveredSet(u[..lb]) + CoveredSet(RestAfter(u, lb))
  {
    PairedParity(t);
    OddNotPaired(u);
    PairedSplit(t, lb);
    ElementsAfter(t, lb, start);
    InsertSorted(t, lb, Entry(start, RangeElement(start, start + 1)));
  }

  lemma OddNotPaired(u: seq<Entry>)
    requires |u| % 2 == 1
    ensures !Paired(u)
  {
    if Paired(u) {
      PairedParity(u);
    }
  }

  /** No range covers x when the keys before the even position lb are at most x and the rest above it. */
  lemma NotCoveredBetween(t: seq<Entry>, lb: nat, x: int)
    requires Paired(t) && lb <= |t| && lb % 2 == 0
    requires forall j :: 0 <= j < lb ==> t[j].key <= x
    requires forall j :: lb <= j < |t| ==> t[j].key > x
    ensures x !in CoveredSet(t)
  {
    CoveredWitness(t, x);
    forall j | 0 <= j && j + 1 < |t| && j % 2 == 0
      ensures !InPair(t, j, x)
    {
      if j < lb {
        assert j + 1 < lb;
      }
    }
  }

  /**
   * add_range's merge branch: the entry at lower_bound is start's own start
   * key or an end key, so the range it belongs to begins at the even
   * position k at or before it, contains or ends at start, and find locates
   * it through the element.
   */
  lemma ExistingRangePosition(t: seq<Entry>, start: int)
    requires ValidTable(t)
    requires var lb := LowerBound(t, start);
      lb < |t| && !(t[lb].key == t[lb].elt.start && t[lb].key != start)
    ensures var lb := LowerBound(t, start);
      var k := Find(t, t[lb].elt.start);
      && k % 2 == 0 && k + 1 < |t| && t[k].key <= start <= t[k + 1].key
      && (start in CoveredSet(t) || Find(t, start) < |t|)
  {
    var lb := LowerBound(t, start);
    EntryKinds(t, lb);
    var k := if lb % 2 == 1 then lb - 1 else lb;
    EntryKinds(t, k);
    FindSorted(t, k);
    assert t[k].key < t[k + 1].key by {
      SortedPairs(t);
    }
    CoveredWitness(t, start);
    if start < t[k + 1].key {
      assert InPair(t, k, start);
    } else {
      FindSorted(t, k + 1);
    }
  }

  /**
   * The range whose start entry sits at the even position k: its end entry
   * follows it, the tables either side stay paired, and its end point is
   * not covered.
   */
  lemma RangeAt(t: seq<Entry>, k: nat)
    requires ValidTable(t) && k % 2 == 0 && k + 1 < |t|
    ensures ExpandReady(t, k)
    ensures t[k].key == t[k].elt.start < t[k].elt.end
    ensures HasEnd(t, k) && RestAfter(t, k) == t[k + 2..]
    ensures Paired(t[..k]) && Paired(t[k + 2..])
    ensures CoveredSet(t) == CoveredSet(t[..k]) + (RangeSet(t[k].key, t[k].elt.end) + CoveredSet(t[k + 2..]))
    ensures t[k].elt.end !in CoveredSet(t)
  {
    EntryKinds(t, k);
    ValidSplit(t, k);
    ValidTail(t[k..]);
    assert t[k..][2..] == t[k + 2..];
    assert t[k..][0] == t[k] && t[k..][1] == t[k + 1];
    EndNotCovered(t, k + 1);
  }

  /**
   * add_range(5, 5) on an empty table, as written: the one-point range
   * created at 5 is never given an end key, so the table is left with a
   * single key and the closing check_invariants aborts the program.
   */
  method EmptyRangeAborts() returns (lookup: RangeLookup, ok: bool)
    ensures lookup.table == [Entry(5, RangeElement(5, 6))]
    ensures !ok
  {
    lookup := new RangeLookup();
    ok := lookup.AddRangeAsWritten(5, 5);
  }
}
