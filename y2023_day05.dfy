/**
 * 2023 day 5 (2023/src/day05.hpp): almanac conversion maps. Each entry
 * maps a source range onto a destination range by a constant shift; a
 * value no entry contains maps to itself.
 */
module Y2023Day05 {

  /** A half-open range `[start, start + length)`. */
  datatype Range = Range(start: int, length: int)
  {
    /** `contains`. */
    predicate Contains(v: int)
    {
      start <= v < start + length
    }
  }

  /** A map entry: the source range and the shift from source to destination. */
  datatype MapEntry = MapEntry(start: int, length: int, shift: int)
  {
    function Source(): Range
    {
      Range(start, length)
    }

    /** `intersect`: the part of `r` this entry covers, shifted into the destination, or the empty `Range()`. */
    function Intersect(r: Range): (out: Range)
      ensures out.length >= 0
      ensures out.length > 0 ==> out.start == Max(start, r.start) + shift
    {
      var maxStart := Max(start, r.start);
      var minEnd := Min(start + length, r.start + r.length);
      var newLength := minEnd - maxStart;
      if newLength > 0 then Range(maxStart + shift, newLength) else Range(0, 0)
    }
  }

  function Max(a: int, b: int): int { if a >= b then a else b }
  function Min(a: int, b: int): int { if a <= b then a else b }

  /** `MapEntry(dest_start, src_start, length)`. */
  function MakeEntry(destStart: int, srcStart: int, length: int): (e: MapEntry)
    ensures e.Source() == Range(srcStart, length)
    ensures forall v :: e.Source().Contains(v) ==> destStart <= v + e.shift < destStart + length
  {
    MapEntry(srcStart, length, destStart - srcStart)
  }

  /** A value lies in the intersection exactly when its shifted image is in both the entry and the range. */
  lemma IntersectContains(e: MapEntry, r: Range, v: int)
    ensures e.Source().Contains(v) && r.Contains(v) <==> e.Intersect(r).Contains(v + e.shift) && e.Intersect(r).length > 0
  {
  }

  /** The `operator<=>` that `= default` generates: start, then length, then shift. */
  predicate EntryLeq(a: MapEntry, b: MapEntry)
  {
    a.start < b.start || (a.start == b.start && (a.length < b.length || (a.length == b.length && a.shift <= b.shift)))
  }

  predicate SortedEntries(s: seq<MapEntry>)
  {
    forall i, j :: 0 <= i < j < |s| ==> EntryLeq(s[i], s[j])
  }

  function InsertEntry(e: MapEntry, s: seq<MapEntry>): seq<MapEntry>
  {
    if s == [] then [e] else if EntryLeq(e, s[0]) then [e] + s else [s[0]] + InsertEntry(e, s[1..])
  }

  /** `std::ranges::sort` on the entries. */
  function SortEntries(s: seq<MapEntry>): seq<MapEntry>
  {
    if s == [] then [] else InsertEntry(s[0], SortEntries(s[1..]))
  }

  lemma {:induction false} InsertEntryFacts(e: MapEntry, s: seq<MapEntry>)
    ensures multiset(InsertEntry(e, s)) == multiset{e} + multiset(s)
    ensures SortedEntries(s) ==> SortedEntries(InsertEntry(e, s))
  {
    if s != [] && !EntryLeq(e, s[0]) {
      InsertEntryFacts(e, s[1..]);
      assert s == [s[0]] + s[1..];
      var r := InsertEntry(e, s[1..]);
      if SortedEntries(s) {
        forall k | 0 <= k < |r| ensures EntryLeq(s[0], r[k]) {
          assert r[k] in multiset(r);
          if r[k] != e {
            assert r[k] in multiset(s[1..]);
            var m :| 0 <= m < |s[1..]| && s[1..][m] == r[k];
            assert s[1 + m] == r[k];
          }
        }
        assert InsertEntry(e, s) == [s[0]] + r;
      }
    }
  }

  /** Sorting yields a sorted permutation. */
  lemma {:induction false} SortEntriesFacts(s: seq<MapEntry>)
    ensures SortedEntries(SortEntries(s)) && multiset(SortEntries(s)) == multiset(s)
  {
    if s != [] {
      SortEntriesFacts(s[1..]);
      InsertEntryFacts(s[0], SortEntries(s[1..]));
      assert s == [s[0]] + s[1..];
    }
  }

  /** The index of the first entry containing `v` (`find_if`), or |entries|. */
  function FirstContaining(entries: seq<MapEntry>, v: int): (i: nat)
    ensures i <= |entries| && (i < |entries| ==> entries[i].Source().Contains(v))
    ensures forall k :: 0 <= k < i ==> !entries[k].Source().Contains(v)
  {
    if entries == [] || entries[0].Source().Contains(v) then 0 else 1 + FirstContaining(entries[1..], v)
  }

  /** `apply`. */
  function Apply(entries: seq<MapEntry>, v: int): int
  {
    var i := FirstContaining(entries, v);
    if i < |entries| then v + entries[i].shift else v
  }

  /** `apply` shifts by the first entry that contains the value, and leaves a value no entry contains alone. */
  lemma ApplyFirstMatch(entries: seq<MapEntry>, v: int)
    ensures (forall k :: 0 <= k < |entries| ==> !entries[k].Source().Contains(v)) ==> Apply(entries, v) == v
    ensures forall i :: (0 <= i < |entries| && entries[i].Source().Contains(v)
      && forall k :: 0 <= k < i ==> !entries[k].Source().Contains(v)) ==> Apply(entries, v) == v + entries[i].shift
  {
    var f := FirstContaining(entries, v);
    forall i | 0 <= i < |entries| && entries[i].Source().Contains(v)
      && (forall k :: 0 <= k < i ==> !entries[k].Source().Contains(v))
      ensures f == i
    {
      assert f <= i;
      assert f < |entries| ==> entries[f].Source().Contains(v);
    }
  }

  /** No value lies in the source ranges of two entries. */
  ghost predicate Disjoint(entries: seq<MapEntry>)
  {
    forall i, j, v :: 0 <= i < j < |entries| && entries[i].Source().Contains(v) ==> !entries[j].Source().Contains(v)
  }

  /** With disjoint source ranges, the value maps through the one entry that contains it, whatever the order. */
  lemma ApplyUnique(entries: seq<MapEntry>, e: MapEntry, v: int)
    requires Disjoint(entries) && e in entries && e.Source().Contains(v)
    ensures Apply(entries, v) == v + e.shift
  {
    var i :| 0 <= i < |entries| && entries[i] == e;
    var f := FirstContaining(entries, v);
    assert f <= i;
    assert entries[f].Source().Contains(v);
  }

  /** Sorting by `read` does not change what a map with disjoint source ranges does. */
  lemma SortKeepsApply(entries: seq<MapEntry>, v: int)
    requires Disjoint(entries) && Disjoint(SortEntries(entries))
    ensures Apply(SortEntries(entries), v) == Apply(entries, v)
  {
    var sorted := SortEntries(entries);
    SortEntriesFacts(entries);
    var f := FirstContaining(entries, v);
    if f < |entries| {
      assert entries[f] in multiset(sorted);
      ApplyUnique(sorted, entries[f], v);
    } else {
      forall k | 0 <= k < |sorted| ensures !sorted[k].Source().Contains(v) {
        assert sorted[k] in multiset(entries);
        var m :| 0 <= m < |entries| && entries[m] == sorted[k];
      }
    }
  }

  class ConversionMap {
    var name: string
    var entries: seq<MapEntry>

    constructor (name: string, entries: seq<MapEntry>)
      ensures this.name == name && this.entries == entries
    {
      this.name := name;
      this.entries := entries;
    }

    /** `add_entry`. */
    method AddEntry(e: MapEntry)
      modifies this
      ensures entries == old(entries) + [e] && name == old(name)
    {
      entries := entries + [e];
    }

    /** `apply_in_place`: every input is replaced by its mapped value. */
    method ApplyInPlace(inputs: array<int>)
      modifies inputs
      ensures forall i :: 0 <= i < inputs.Length ==> inputs[i] == Apply(entries, old(inputs[i]))
    {
      for i := 0 to inputs.Length
        invariant forall k :: 0 <= k < i ==> inputs[k] == Apply(entries, old(inputs[k]))
        invariant forall k :: i <= k < inputs.Length ==> inputs[k] == old(inputs[k])
      {
        inputs[i] := Apply(entries, inputs[i]);
      }
    }
  }

  /** `ConversionMap::read`, given the label and the parsed entry lines: the entries are collected, then sorted. */
  method Read(name: string, lines: seq<MapEntry>) returns (m: ConversionMap)
    ensures fresh(m) && m.name == name && m.entries == SortEntries(lines)
  {
    m := new ConversionMap(name, []);
    for i := 0 to |lines|
      invariant m.name == name && m.entries == lines[..i]
    {
      m.AddEntry(lines[i]);
    }
    assert lines[..|lines|] == lines;
    m.entries := SortEntries(m.entries);
  }

  /** The worked example: 50..97 move up by 2, 98 and 99 move to 50 and 51, everything else stays. */
  lemma ExampleMapping(v: int)
    ensures var entries := [MakeEntry(50, 98, 2), MakeEntry(52, 50, 48)];
      Apply(entries, v) == if 50 <= v < 98 then v + 2 else if 98 <= v < 100 then v - 48 else v
  {
    var entries := [MakeEntry(50, 98, 2), MakeEntry(52, 50, 48)];
    assert entries[0] == MapEntry(98, 2, -48) && entries[1] == MapEntry(50, 48, 2);
    assert entries[1..][1..] == [];
    var f := FirstContaining(entries, v);
    assert f == 0 <==> 98 <= v < 100;
    assert f == 1 <==> 50 <= v < 98;
  }

  /** The worked example of `read`: the entries come out ordered by source start. */
  lemma ExampleRead()
    ensures SortEntries([MakeEntry(50, 98, 2), MakeEntry(52, 50, 48)]) == [MakeEntry(52, 50, 48), MakeEntry(50, 98, 2)]
    ensures SortEntries([MakeEntry(0, 15, 37), MakeEntry(37, 52, 2), MakeEntry(39, 0, 15)])
      == [MakeEntry(39, 0, 15), MakeEntry(0, 15, 37), MakeEntry(37, 52, 2)]
  {
  }
}
