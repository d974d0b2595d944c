/**
 * 2023 day 15 (2023/src/day15.hpp): the HASH algorithm and the HASHMAP of
 * 256 boxes of labelled lenses. A box is a list of lenses in slot order;
 * a step either puts a lens with a focal length into the box its label
 * hashes to, or takes the lens with that label out.
 */
module Y2023Day15 {
  import opened AocLib

  /** The HASH of `s`: for each character, add its code, multiply by 17, keep the remainder mod 256. */
  function Hash(s: string): (h: nat)
    ensures h < 256
  {
    if s == [] then 0 else ((Hash(s[..|s| - 1]) + s[|s| - 1] as int) * 17) % 256
  }

  /** `hash_algorithm`. */
  method HashAlgorithm(s: string) returns (value: int)
    ensures value == Hash(s) && 0 <= value < 256
  {
    value := 0;
    for i := 0 to |s|
      invariant value == Hash(s[..i])
    {
      assert s[..i + 1][..i] == s[..i];
      value := value + s[i] as int;
      value := value * 17;
      value := value % 256;
    }
    assert s[..|s|] == s;
  }

  lemma HashEmpty()
    ensures Hash("") == 0
  {
  }

  datatype Lens = Lens(name: string, focal: int)

  /** `std::find_if` for the operation character: the index of the first '=' or '-', or |step| if none. */
  function OpIndex(step: string): (i: nat)
    ensures i <= |step| && (i < |step| ==> step[i] == '=' || step[i] == '-')
    ensures forall j :: 0 <= j < i ==> step[j] != '=' && step[j] != '-'
  {
    if step == [] || step[0] == '=' || step[0] == '-' then 0 else 1 + OpIndex(step[1..])
  }

  /** The character of a `std::string` at `i`, where the one just past the end is the terminating NUL. */
  function At(s: string, i: nat): char
  {
    if i < |s| then s[i] else '\0'
  }

  /** The label of a step: everything before its operation character. */
  function Label(step: string): string
  {
    step[..OpIndex(step)]
  }

  /** `std::find_if` on a box: the slot of the lens labelled `key`, or |box| if there is none. */
  function FindLens(box: seq<Lens>, key: string): (i: nat)
    ensures i <= |box| && (i < |box| ==> box[i].name == key)
    ensures forall j :: 0 <= j < i ==> box[j].name != key
  {
    if box == [] || box[0].name == key then 0 else 1 + FindLens(box[1..], key)
  }

  /** What a step does to the box its label hashes to. */
  function Operated(box: seq<Lens>, step: string): seq<Lens>
  {
    var i := OpIndex(step);
    var key := step[..i];
    var j := FindLens(box, key);
    if At(step, i) == '=' then
      var lens := Lens(key, At(step, i + 1) as int - '0' as int);
      if j == |box| then box + [lens] else box[j := lens]
    else if At(step, i) == '-' then
      if j < |box| then box[..j] + box[j + 1..] else box
    else box
  }

  /** No two lenses in a box share a label. */
  predicate UniqueLabels(box: seq<Lens>)
  {
    forall i, j :: 0 <= i < j < |box| ==> box[i].name != box[j].name
  }

  /** The focal length of the lens labelled `key` in a box, if there is one. */
  function Lookup(box: seq<Lens>, key: string): Option<int>
  {
    var j := FindLens(box, key);
    if j < |box| then Some(box[j].focal) else None
  }

  class Hashmap {
    var boxes: array<seq<Lens>>

    ghost predicate Valid()
      reads this, boxes
    {
      boxes.Length == 256 && forall b :: 0 <= b < 256 ==> UniqueLabels(boxes[b])
    }

    constructor ()
      ensures Valid() && fresh(boxes) && forall b :: 0 <= b < 256 ==> boxes[b] == []
    {
      boxes := new seq<Lens>[256](_ => []);
    }

    /** `operate(step)`: only the box the label hashes to changes. */
    method Operate(step: string)
      requires Valid()
      modifies boxes
      ensures Valid()
      ensures boxes[..] == old(boxes[..])[Hash(Label(step)) := Operated(old(boxes[Hash(Label(step))]), step)]
    {
      var i := OpIndex(step);
      var key := step[..i];
      var h := HashAlgorithm(key);
      var box := boxes[h];
      var j := FindLens(box, key);
      OperatedUnique(box, step);
      if At(step, i) == '=' {
        var lens := Lens(key, At(step, i + 1) as int - '0' as int);
        if j == |box| {
          boxes[h] := box + [lens];
        } else {
          boxes[h] := box[j := lens];
        }
      } else if At(step, i) == '-' {
        if j < |box| {
          boxes[h] := box[..j] + box[j + 1..];
        }
      }
    }

    /** `focusing_power()`. */
    method FocusingPower() returns (power: int)
      requires Valid()
      ensures power == Power(boxes[..], 256)
    {
      power := 0;
      for b := 0 to 256
        invariant power == Power(boxes[..], b)
      {
        var box := boxes[b];
        var slot := 1;
        ghost var before := power;
        while slot <= |box|
          invariant 1 <= slot <= |box| + 1
          invariant power == before + BoxPower(box, b + 1, slot - 1)
        {
          power := power + (b + 1) * slot * box[slot - 1].focal;
          slot := slot + 1;
        }
      }
    }
  }

  lemma UniqueAppend(box: seq<Lens>, lens: Lens)
    requires UniqueLabels(box) && forall a :: 0 <= a < |box| ==> box[a].name != lens.name
    ensures UniqueLabels(box + [lens])
  {
    var r := box + [lens];
    forall a, b | 0 <= a < b < |r|
      ensures r[a].name != r[b].name
    {
      if b == |box| {
        assert r[a] == box[a] && r[b] == lens;
      } else {
        assert r[a] == box[a] && r[b] == box[b];
      }
    }
  }

  lemma UniqueReplace(box: seq<Lens>, j: nat, lens: Lens)
    requires UniqueLabels(box) && j < |box| && box[j].name == lens.name
    ensures UniqueLabels(box[j := lens])
  {
    var r := box[j := lens];
    assert forall a :: 0 <= a < |r| ==> r[a].name == box[a].name;
  }

  lemma UniqueRemove(box: seq<Lens>, j: nat)
    requires UniqueLabels(box) && j < |box|
    ensures UniqueLabels(box[..j] + box[j + 1..])
  {
    var r := box[..j] + box[j + 1..];
    assert forall a :: 0 <= a < |r| ==> r[a] == (if a < j then box[a] else box[a + 1]);
  }

  /** Steps keep labels unique within a box. */
  lemma OperatedUnique(box: seq<Lens>, step: string)
    requires UniqueLabels(box)
    ensures UniqueLabels(Operated(box, step))
  {
    var i := OpIndex(step);
    var key := step[..i];
    var j := FindLens(box, key);
    if At(step, i) == '=' {
      var lens := Lens(key, At(step, i + 1) as int - '0' as int);
      if j == |box| {
        UniqueAppend(box, lens);
      } else {
        UniqueReplace(box, j, lens);
      }
    } else if At(step, i) == '-' && j < |box| {
      UniqueRemove(box, j);
    }
  }

  /** The power of lenses in the first `k` slots of box number `boxNo` (counting from 1). */
  function BoxPower(box: seq<Lens>, boxNo: int, k: nat): int
    requires k <= |box|
  {
    if k == 0 then 0 else BoxPower(box, boxNo, k - 1) + boxNo * k * box[k - 1].focal
  }

  /** The focusing power of the first `n` boxes: box number times slot number times focal length, summed. */
  function Power(boxes: seq<seq<Lens>>, n: nat): int
    requires n <= |boxes|
  {
    if n == 0 then 0 else Power(boxes, n - 1) + BoxPower(boxes[n - 1], n, |boxes[n - 1]|)
  }

  /** `FindLens` is pinned down by its contract. */
  lemma FindLensIs(box: seq<Lens>, key: string, k: nat)
    requires k <= |box| && (k < |box| ==> box[k].name == key)
    requires forall j :: 0 <= j < k ==> box[j].name != key
    ensures FindLens(box, key) == k
  {
  }

  /**
   * An '=' step leaves the box holding the new focal length under the
   * label and every other label as it was; a lens already there keeps its
   * slot, a new one goes after all the others.
   */
  lemma InsertLens(box: seq<Lens>, step: string, l: string)
    requires UniqueLabels(box)
    requires At(step, OpIndex(step)) == '='
    ensures var box' := Operated(box, step); var i := OpIndex(step);
      Lookup(box', l) == (if l == Label(step) then Some(At(step, i + 1) as int - '0' as int) else Lookup(box, l))
      && (FindLens(box, Label(step)) < |box| ==> |box'| == |box| && FindLens(box', Label(step)) == FindLens(box, Label(step)))
      && (FindLens(box, Label(step)) == |box| ==> box' == box + [box'[|box|]] && box'[|box|].name == Label(step))
  {
    var box' := Operated(box, step);
    var i := OpIndex(step);
    var key := Label(step);
    var lens := Lens(key, At(step, i + 1) as int - '0' as int);
    var j := FindLens(box, key);
    var k := FindLens(box, l);
    if j == |box| {
      assert box' == box + [lens];
      FindLensIs(box', key, j);
      if l != key {
        FindLensIs(box', l, if k < |box| then k else |box'|);
      }
    } else {
      assert box' == box[j := lens];
      FindLensIs(box', key, j);
      if l != key {
        assert k != j;
        FindLensIs(box', l, k);
      }
    }
  }

  /**
   * A '-' step leaves no lens under the label and every other label as it
   * was; when there was none, the box is unchanged.
   */
  lemma RemoveLens(box: seq<Lens>, step: string, l: string)
    requires UniqueLabels(box)
    requires At(step, OpIndex(step)) == '-'
    ensures var box' := Operated(box, step);
      Lookup(box', l) == (if l == Label(step) then None else Lookup(box, l))
      && (Lookup(box, Label(step)) == None ==> box' == box)
      && (Lookup(box, Label(step)) != None ==> |box'| == |box| - 1)
  {
    var box' := Operated(box, step);
    var key := Label(step);
    var j := FindLens(box, key);
    if j < |box| {
      assert forall i :: 0 <= i < |box'| ==> box'[i] == (if i < j then box[i] else box[i + 1]);
      var k := FindLens(box, l);
      if l == key {
        FindLensIs(box', l, |box'|);
      } else if k < j {
        FindLensIs(box', l, k);
      } else if k < |box| {
        FindLensIs(box', l, k - 1);
      } else {
        FindLensIs(box', l, |box'|);
      }
    }
  }

  /** A step without an operation character changes nothing. */
  lemma NoOperation(box: seq<Lens>, step: string)
    requires OpIndex(step) == |step|
    ensures Operated(box, step) == box
  {
  }
}
