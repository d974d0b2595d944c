/**
 * 2024 day 9 (2024/src/day09.hpp): a disk map of alternating file and
 * free-space runs, compacted block by block by moving the last file block
 * into the first free block, then checksummed.
 */
module Y2024Day09 {
  import opened AocLib

  /** The value of a free block. */
  const EMPTY: int := -1

  /** The whitespace `operator>>` skips. */
  predicate IsSpace(ch: char)
  {
    ch == ' ' || (9 <= ch as int <= 13)
  }

  /** `n` copies of `v`. */
  function Fill(v: int, n: nat): (r: seq<int>)
    ensures |r| == n && forall i :: 0 <= i < n ==> r[i] == v
  {
    if n == 0 then [] else Fill(v, n - 1) + [v]
  }

  /** The reader's state: the blocks so far, the next file id, and whether the next run is free space. */
  datatype Reader = Reader(blocks: seq<int>, fileId: nat, isEmpty: bool)

  /**
   * One character of the disk map: a run of `ch - '0'` blocks, of the next
   * file or free. A negative count shrinks the vector as `resize` does, and
   * fails (`std::length_error`) when it would go below zero.
   */
  function ReadChar(r: Reader, ch: char): Option<Reader>
  {
    if IsSpace(ch) then Some(r)
    else
      var count := ch as int - '0' as int;
      var value := if r.isEmpty then EMPTY else r.fileId;
      var fileId := if r.isEmpty then r.fileId else r.fileId + 1;
      var size := |r.blocks| + count;
      if size < 0 then None
      else
        var blocks := if count >= 0 then r.blocks + Fill(value, count) else r.blocks[..size];
        Some(Reader(blocks, fileId, !r.isEmpty))
  }

  /** The reader's state after the characters of `s`. */
  function ReadAll(s: string): Option<Reader>
  {
    if s == [] then Some(Reader([], 0, false))
    else match ReadAll(s[..|s| - 1])
      case None => None
      case Some(r) => ReadChar(r, s[|s| - 1])
  }

  /** `operator>>(is, disk_layout)`: the blocks, or None if a resize fails. */
  method Read(s: string) returns (blocks: Option<seq<int>>)
    ensures blocks == (match ReadAll(s) case None => None case Some(r) => Some(r.blocks))
  {
    var bs: seq<int> := [];
    var fileId := 0;
    var isEmpty := false;
    for i := 0 to |s|
      invariant ReadAll(s[..i]) == Some(Reader(bs, fileId, isEmpty))
    {
      assert s[..i + 1][..i] == s[..i];
      var ch := s[i];
      if !IsSpace(ch) {
        var count := ch as int - '0' as int;
        var value := if isEmpty then EMPTY else fileId;
        if !isEmpty {
          fileId := fileId + 1;
        }
        var size := |bs| + count;
        if size < 0 {
          assert ReadAll(s[..i + 1]) == None;
          ReadAllNone(s, i + 1);
          return None;
        }
        if count >= 0 {
          bs := bs + Fill(value, count);
        } else {
          bs := bs[..size];
        }
        isEmpty := !isEmpty;
      }
    }
    assert s[..|s|] == s;
    return Some(bs);
  }

  /** Once reading fails it stays failed. */
  lemma {:induction false} ReadAllNone(s: string, i: nat)
    requires i <= |s| && ReadAll(s[..i]) == None
    ensures ReadAll(s) == None
    decreases |s| - i
  {
    if i < |s| {
      assert s[..i + 1][..i] == s[..i];
      ReadAllNone(s, i + 1);
    } else {
      assert s[..i] == s;
    }
  }

  predicate IsDigit(ch: char)
  {
    '0' <= ch <= '9'
  }

  /** The number of blocks holding `v`. */
  function Count(bs: seq<int>, v: int): nat
  {
    multiset(bs)[v]
  }

  /** A value that occurs nowhere in `s` has multiplicity 0. */
  lemma {:induction false} CountAbsent(s: seq<int>, v: int)
    requires forall i :: 0 <= i < |s| ==> s[i] != v
    ensures multiset(s)[v] == 0
    decreases |s|
  {
    if s != [] {
      var s' := s[..|s| - 1];
      assert s == s' + [s[|s| - 1]];
      CountAbsent(s', v);
    }
  }

  lemma {:induction false} FillCount(v: int, n: nat)
    ensures multiset(Fill(v, n))[v] == n
  {
    if n > 0 {
      FillCount(v, n - 1);
    }
  }

  /** A digit appends a run of that many blocks, of the next file or free, and flips the run kind. */
  lemma DigitStep(r: Reader, ch: char)
    requires IsDigit(ch)
    ensures ReadChar(r, ch) == Some(Reader(r.blocks + Fill(if r.isEmpty then EMPTY else r.fileId, ch as int - '0' as int),
                                          if r.isEmpty then r.fileId else r.fileId + 1, !r.isEmpty))
  {
  }

  /** Reading one more character is one more `ReadChar`. */
  lemma ReadSnoc(s: string)
    requires s != []
    ensures ReadAll(s) == (match ReadAll(s[..|s| - 1]) case None => None case Some(r) => ReadChar(r, s[|s| - 1]))
  {
  }

  /** On a map of digits, reading never fails, and file and free runs alternate starting with a file. */
  lemma {:induction false} ReadDigitsShape(s: string)
    requires forall i :: 0 <= i < |s| ==> IsDigit(s[i])
    ensures ReadAll(s).Some?
    ensures var r := ReadAll(s).value; r.fileId == (|s| + 1) / 2 && r.isEmpty == (|s| % 2 == 1)
    decreases |s|
  {
    if s != [] {
      var s' := s[..|s| - 1];
      ReadDigitsShape(s');
      var r := ReadAll(s').value;
      ReadSnoc(s);
      DigitStep(r, s[|s| - 1]);
      var n := |s'|;
      if n % 2 == 1 {
        assert r.isEmpty && (n + 2) / 2 == (n + 1) / 2 && (n + 1) % 2 == 0;
      } else {
        assert !r.isEmpty && (n + 2) / 2 == (n + 1) / 2 + 1 && (n + 1) % 2 == 1;
      }
    }
  }

  /** On a map of digits, file `k` gets as many blocks as the `2k`-th digit says. */
  lemma {:induction false} ReadDigitsCounts(s: string)
    requires forall i :: 0 <= i < |s| ==> IsDigit(s[i])
    ensures ReadAll(s).Some?
    ensures var r := ReadAll(s).value;
      forall k :: 0 <= k && 2 * k < |s| ==> Count(r.blocks, k) == s[2 * k] as int - '0' as int
    decreases |s|
  {
    ReadDigitsShape(s);
    if s != [] {
      var s' := s[..|s| - 1];
      ReadDigitsCounts(s');
      ReadDigitsRange(s');
      ReadDigitsShape(s');
      var r := ReadAll(s').value;
      var count := s[|s| - 1] as int - '0' as int;
      var value := if r.isEmpty then EMPTY else r.fileId;
      var fill := Fill(value, count);
      var bs := r.blocks + fill;
      ReadSnoc(s);
      DigitStep(r, s[|s| - 1]);
      assert ReadAll(s).value.blocks == bs;
      assert multiset(bs) == multiset(r.blocks) + multiset(fill);
      forall k | 0 <= k && 2 * k < |s|
        ensures Count(bs, k) == s[2 * k] as int - '0' as int
      {
        if 2 * k < |s'| {
          assert s'[2 * k] == s[2 * k];
          assert k < r.fileId;
          assert value != k;
          CountAbsent(fill, k);
          assert multiset(bs)[k] == multiset(r.blocks)[k] + multiset(fill)[k];
        } else {
          assert 2 * k == |s'| && |s'| % 2 == 0;
          assert k == r.fileId && !r.isEmpty;
          CountAbsent(r.blocks, r.fileId);
          FillCount(value, count);
          assert multiset(bs)[k] == multiset(r.blocks)[k] + multiset(fill)[k];
        }
      }
    }
  }

  /** On a map of digits, every block is free or holds a file id already handed out. */
  lemma {:induction false} ReadDigitsRange(s: string)
    requires forall i :: 0 <= i < |s| ==> IsDigit(s[i])
    ensures ReadAll(s).Some?
    ensures var r := ReadAll(s).value;
      forall i :: 0 <= i < |r.blocks| ==> r.blocks[i] == EMPTY || 0 <= r.blocks[i] < r.fileId
    decreases |s|
  {
    ReadDigitsShape(s);
    if s != [] {
      var s' := s[..|s| - 1];
      ReadDigitsRange(s');
      ReadDigitsShape(s');
      ReadSnoc(s);
      DigitStep(ReadAll(s').value, s[|s| - 1]);
    }
  }

  /** On a map of digits, file ids appear in increasing order. */
  lemma {:induction false} ReadDigitsSorted(s: string)
    requires forall i :: 0 <= i < |s| ==> IsDigit(s[i])
    ensures ReadAll(s).Some?
    ensures var r := ReadAll(s).value;
      forall i, j :: 0 <= i < j < |r.blocks| && r.blocks[i] != EMPTY && r.blocks[j] != EMPTY ==>
        r.blocks[i] <= r.blocks[j]
    decreases |s|
  {
    ReadDigitsShape(s);
    if s != [] {
      var s' := s[..|s| - 1];
      ReadDigitsSorted(s');
      ReadDigitsRange(s');
      ReadDigitsShape(s');
      ReadSnoc(s);
      DigitStep(ReadAll(s').value, s[|s| - 1]);
    }
  }

  /** No block of `bs` is free. */
  predicate NoEmpty(bs: seq<int>)
  {
    forall i :: 0 <= i < |bs| ==> bs[i] != EMPTY
  }

  /** The blocks of `bs` that are not free, with their multiplicities. */
  function Files(bs: seq<int>): multiset<int>
  {
    multiset(bs)[EMPTY := 0]
  }

  /** `bs` without its trailing free blocks. */
  function Trim(bs: seq<int>): (t: seq<int>)
    ensures |t| <= |bs| && (t == [] || t[|t| - 1] != EMPTY)
  {
    if bs == [] || bs[|bs| - 1] != EMPTY then bs else Trim(bs[..|bs| - 1])
  }

  /** The position of the first free block of `bs`, or `|bs|` when there is none. */
  function FirstFree(bs: seq<int>): (i: nat)
    ensures i <= |bs| && (i < |bs| ==> bs[i] == EMPTY)
  {
    if bs == [] || bs[0] == EMPTY then 0 else FirstFree(bs[1..]) + 1
  }

  /**
   * What compaction should produce, one move at a time: drop the trailing
   * free blocks, then move the last file block into the first free block,
   * until no free block is left.
   */
  function Compacted(bs: seq<int>): seq<int>
    decreases |bs|
  {
    var t := Trim(bs);
    var i := FirstFree(t);
    if i == |t| then t else Compacted(t[..|t| - 1][i := t[|t| - 1]])
  }

  /** Trim keeps exactly the blocks up to the last file block. */
  lemma {:induction false} TrimIs(bs: seq<int>, k: nat)
    requires k <= |bs| && (k == 0 || bs[k - 1] != EMPTY)
    requires forall i :: k <= i < |bs| ==> bs[i] == EMPTY
    ensures Trim(bs) == bs[..k]
    decreases |bs|
  {
    if k < |bs| {
      var bs' := bs[..|bs| - 1];
      assert bs'[..k] == bs[..k];
      TrimIs(bs', k);
    } else {
      assert bs[..k] == bs;
    }
  }

  /** Free blocks after position k make no difference to Trim. */
  lemma {:induction false} TrimPad(bs: seq<int>, k: nat)
    requires k <= |bs| && forall i :: k <= i < |bs| ==> bs[i] == EMPTY
    ensures Trim(bs) == Trim(bs[..k])
    decreases |bs|
  {
    if k < |bs| {
      var bs' := bs[..|bs| - 1];
      assert bs'[..k] == bs[..k];
      TrimPad(bs', k);
    } else {
      assert bs[..k] == bs;
    }
  }

  /** FirstFree finds exactly the first free block. */
  lemma {:induction false} FirstFreeIs(bs: seq<int>, k: nat)
    requires k <= |bs| && NoEmpty(bs[..k]) && (k < |bs| ==> bs[k] == EMPTY)
    ensures FirstFree(bs) == k
    decreases k
  {
    if k > 0 {
      var j := k - 1;
      assert bs[..k][0] == bs[0];
      assert bs[1..][..j] == bs[..k][1..];
      FirstFreeIs(bs[1..], j);
    }
  }

  /** ... and so none to what compaction should produce. */
  lemma CompactedPad(bs: seq<int>, k: nat)
    requires k <= |bs| && forall i :: k <= i < |bs| ==> bs[i] == EMPTY
    ensures Compacted(bs) == Compacted(bs[..k])
  {
    TrimPad(bs, k);
  }

  /** The example of the puzzle text, in small: `0..12` compacts to `021`. */
  lemma CompactedExample()
    ensures Compacted([0, EMPTY, EMPTY, 1, 2]) == [0, 2, 1]
  {
    var a, b, c := [0, EMPTY, EMPTY, 1, 2], [0, 2, EMPTY, 1], [0, 2, 1];
    CompactedMove(a, 1);
    assert a[..4][1 := 2] == b;
    CompactedMove(b, 2);
    assert b[..3][2 := 1] == c;
    CompactedFinal(c, 3);
  }

  /** A map ending in a file block, with a free block at i and none before: one move. */
  lemma CompactedMove(t: seq<int>, i: nat)
    requires i < |t| && t[|t| - 1] != EMPTY && NoEmpty(t[..i]) && t[i] == EMPTY
    ensures Compacted(t) == Compacted(t[..|t| - 1][i := t[|t| - 1]])
  {
    TrimIs(t, |t|);
    FirstFreeIs(t, i);
  }

  /** Once no free block precedes the free tail, compaction keeps the rest as it is. */
  lemma CompactedFinal(bs: seq<int>, k: nat)
    requires k <= |bs| && NoEmpty(bs[..k]) && forall i :: k <= i < |bs| ==> bs[i] == EMPTY
    ensures Compacted(bs) == bs[..k]
  {
    CompactedPad(bs, k);
    if k > 0 {
      assert bs[..k][k - 1] == bs[k - 1];
    }
    TrimIs(bs[..k], k);
    FirstFreeIs(bs[..k], k);
  }

  class DiskLayout {
    var blocks: seq<int>

    constructor (bs: seq<int>)
      ensures blocks == bs
    {
      blocks := bs;
    }

    /**
     * `compact()`: afterwards no block is free, the file blocks are the
     * same multiset, and every file block that still fits stays where it
     * was; only blocks past the end move, into the free slots.
     */
    method Compact()
      modifies this
      ensures NoEmpty(blocks)
      ensures Files(blocks) == Files(old(blocks))
      ensures |blocks| <= |old(blocks)|
      ensures forall i :: 0 <= i < |blocks| && old(blocks)[i] != EMPTY ==> blocks[i] == old(blocks)[i]
      ensures blocks == Compacted(old(blocks))
    {
      var bs := blocks;
      ghost var orig := blocks;
      var n := |bs|;
      var firstEmpty := 0;
      var lastFilled := n - 1;
      while true
        invariant Scanning(bs, orig, firstEmpty, lastFilled) && |bs| == n
        invariant Compacted(bs) == Compacted(orig)
        decreases lastFilled - firstEmpty + 2
      {
        firstEmpty, lastFilled := Scan(bs, orig, firstEmpty, lastFilled);
        if firstEmpty >= lastFilled {
          break;
        }
        bs := Swap(bs, orig, firstEmpty, lastFilled);
        firstEmpty := firstEmpty + 1;
        lastFilled := lastFilled - 1;
      }
      CompactDone(bs, orig, firstEmpty, lastFilled);
      CompactedFinal(bs, lastFilled + 1);
      blocks := bs[..lastFilled + 1];
    }

    /** `calculate_checksum()`. */
    method CalculateChecksum() returns (checksum: int)
      ensures checksum == Checksum(blocks)
    {
      checksum := 0;
      for i := 0 to |blocks|
        invariant checksum == Checksum(blocks[..i])
      {
        assert blocks[..i + 1][..i] == blocks[..i];
        checksum := checksum + i * blocks[i];
      }
      assert blocks[..|blocks|] == blocks;
    }
  }

  /**
   * The state of `compact` between steps: the file blocks are the original
   * ones, everything before `firstEmpty` is a file block, everything after
   * `lastFilled` is free, and every original file block up to `lastFilled`
   * is still in place.
   */
  predicate Scanning(bs: seq<int>, orig: seq<int>, firstEmpty: int, lastFilled: int)
  {
    |bs| == |orig| && multiset(bs) == multiset(orig)
    && 0 <= firstEmpty <= |bs| && -1 <= lastFilled < |bs| && firstEmpty <= lastFilled + 1
    && NoEmpty(bs[..firstEmpty])
    && (forall i :: lastFilled < i < |bs| ==> bs[i] == EMPTY)
    && (forall i :: 0 <= i <= lastFilled && orig[i] != EMPTY ==> bs[i] == orig[i])
  }

  /** The two inner loops of `compact()`: the next free block from the front, the next file block from the back. */
  method Scan(bs: seq<int>, ghost orig: seq<int>, from: int, to: int) returns (firstEmpty: int, lastFilled: int)
    requires Scanning(bs, orig, from, to)
    ensures Scanning(bs, orig, firstEmpty, lastFilled) && from <= firstEmpty && lastFilled <= to
    ensures firstEmpty == |bs| || bs[firstEmpty] == EMPTY
    ensures lastFilled == -1 || bs[lastFilled] != EMPTY
  {
    firstEmpty := SkipFiles(bs, orig, from, to);
    lastFilled := SkipFree(bs, orig, firstEmpty, to);
  }

  /** The forward scan of `compact()`: `firstEmpty` moves past file blocks to the next free block, or the end. */
  method SkipFiles(bs: seq<int>, ghost orig: seq<int>, from: int, lastFilled: int) returns (firstEmpty: int)
    requires Scanning(bs, orig, from, lastFilled)
    ensures Scanning(bs, orig, firstEmpty, lastFilled) && from <= firstEmpty
    ensures firstEmpty == |bs| || bs[firstEmpty] == EMPTY
  {
    firstEmpty := from;
    while firstEmpty != |bs| && bs[firstEmpty] != EMPTY
      invariant Scanning(bs, orig, firstEmpty, lastFilled) && from <= firstEmpty
      decreases |bs| - firstEmpty
    {
      assert bs[..firstEmpty + 1] == bs[..firstEmpty] + [bs[firstEmpty]];
      firstEmpty := firstEmpty + 1;
    }
  }

  /** The backward scan of `compact()`: `lastFilled` moves down past free blocks to the previous file block, or -1. */
  method SkipFree(bs: seq<int>, ghost orig: seq<int>, firstEmpty: int, from: int) returns (lastFilled: int)
    requires Scanning(bs, orig, firstEmpty, from)
    requires firstEmpty == |bs| || bs[firstEmpty] == EMPTY
    ensures Scanning(bs, orig, firstEmpty, lastFilled) && lastFilled <= from
    ensures lastFilled == -1 || bs[lastFilled] != EMPTY
  {
    lastFilled := from;
    while lastFilled >= 0 && bs[lastFilled] == EMPTY
      invariant Scanning(bs, orig, firstEmpty, lastFilled) && lastFilled <= from
      decreases lastFilled
    {
      lastFilled := lastFilled - 1;
    }
  }

  /** `std::swap(*first_empty, *last_filled)`. */
  method Swap(bs: seq<int>, ghost orig: seq<int>, firstEmpty: int, lastFilled: int) returns (bs': seq<int>)
    requires Scanning(bs, orig, firstEmpty, lastFilled)
    requires firstEmpty < lastFilled && bs[firstEmpty] == EMPTY && bs[lastFilled] != EMPTY
    ensures Scanning(bs', orig, firstEmpty + 1, lastFilled - 1) && |bs'| == |bs|
    ensures Compacted(bs') == Compacted(bs)
  {
    SwapStep(bs, orig, firstEmpty, lastFilled);
    bs' := bs[firstEmpty := bs[lastFilled]][lastFilled := bs[firstEmpty]];
  }

  /** Moving the last file block into the first free block keeps the scan state, and is one move of `Compacted`. */
  lemma SwapStep(bs: seq<int>, orig: seq<int>, firstEmpty: int, lastFilled: int)
    requires Scanning(bs, orig, firstEmpty, lastFilled)
    requires firstEmpty < lastFilled && bs[firstEmpty] == EMPTY && bs[lastFilled] != EMPTY
    ensures Scanning(bs[firstEmpty := bs[lastFilled]][lastFilled := bs[firstEmpty]], orig, firstEmpty + 1, lastFilled - 1)
    ensures Compacted(bs[firstEmpty := bs[lastFilled]][lastFilled := bs[firstEmpty]]) == Compacted(bs)
  {
    CompactStep(bs, orig, firstEmpty, lastFilled);
    var bs' := bs[firstEmpty := bs[lastFilled]][lastFilled := bs[firstEmpty]];
    assert bs'[..firstEmpty + 1] == bs[..firstEmpty] + [bs[lastFilled]];
    assert multiset(bs') == multiset(bs) by {
      MultisetSwap(bs, firstEmpty, lastFilled);
    }
  }

  /** One swap of `compact()` is one move of `Compacted`. */
  lemma CompactStep(bs: seq<int>, orig: seq<int>, firstEmpty: int, lastFilled: int)
    requires Scanning(bs, orig, firstEmpty, lastFilled)
    requires firstEmpty < lastFilled && bs[firstEmpty] == EMPTY && bs[lastFilled] != EMPTY
    ensures Compacted(bs[firstEmpty := bs[lastFilled]][lastFilled := bs[firstEmpty]]) == Compacted(bs)
  {
    var bs' := bs[firstEmpty := bs[lastFilled]][lastFilled := bs[firstEmpty]];
    var t := bs[..lastFilled + 1];
    CompactedPad(bs, lastFilled + 1);
    assert t[..firstEmpty] == bs[..firstEmpty];
    CompactedMove(t, firstEmpty);
    var u := t[..|t| - 1][firstEmpty := t[|t| - 1]];
    assert bs'[..lastFilled] == u;
    CompactedPad(bs', lastFilled);
  }

  /** Swapping two elements keeps the multiset. */
  lemma MultisetSwap(s: seq<int>, i: nat, j: nat)
    requires i < j < |s|
    ensures multiset(s[i := s[j]][j := s[i]]) == multiset(s)
  {
    var t := s[i := s[j]][j := s[i]];
    assert s == s[..i] + [s[i]] + s[i + 1..j] + [s[j]] + s[j + 1..];
    assert t == s[..i] + [s[j]] + s[i + 1..j] + [s[i]] + s[j + 1..];
  }

  /** When the two scans meet, the blocks split into files then free space. */
  lemma CompactDone(bs: seq<int>, orig: seq<int>, firstEmpty: int, lastFilled: int)
    requires Scanning(bs, orig, firstEmpty, lastFilled)
    requires firstEmpty >= lastFilled
    requires firstEmpty == |bs| || bs[firstEmpty] == EMPTY
    requires lastFilled == -1 || bs[lastFilled] != EMPTY
    ensures firstEmpty == lastFilled + 1
    ensures NoEmpty(bs[..lastFilled + 1])
    ensures Files(bs[..lastFilled + 1]) == Files(orig)
    ensures forall i :: 0 <= i <= lastFilled && orig[i] != EMPTY ==> bs[i] == orig[i]
  {
    var k := lastFilled + 1;
    assert firstEmpty == k;
    assert bs == bs[..k] + bs[k..];
    assert multiset(bs) == multiset(bs[..k]) + multiset(bs[k..]);
    CountAbsent(bs[..k], EMPTY);
    forall v | v != EMPTY
      ensures multiset(bs[k..])[v] == 0
    {
      CountAbsent(bs[k..], v);
    }
  }

  /** The checksum: each block's position times its file id, summed. */
  function Checksum(bs: seq<int>): int
  {
    if bs == [] then 0 else Checksum(bs[..|bs| - 1]) + (|bs| - 1) * bs[|bs| - 1]
  }

  /** Once no block is free (as `calculate_checksum` asserts), every term is non-negative, and so is the sum. */
  lemma {:induction false} ChecksumNonNegative(bs: seq<int>)
    requires forall i :: 0 <= i < |bs| ==> bs[i] >= 0
    ensures Checksum(bs) >= 0
    decreases |bs|
  {
    if bs != [] {
      ChecksumNonNegative(bs[..|bs| - 1]);
    }
  }

  /** Blocks appended after `a` count from position `|a|`: their checksum shifts by `|a|` times their sum. */
  lemma {:induction false} ChecksumAppend(a: seq<int>, b: seq<int>)
    ensures Checksum(a + b) == Checksum(a) + Checksum(b) + |a| * Sum(b)
    decreases |b|
  {
    if b != [] {
      var b' := b[..|b| - 1];
      assert (a + b)[..|a + b| - 1] == a + b';
      ChecksumAppend(a, b');
      var x := b[|b| - 1];
      var n, m, t := |a|, |b'|, Sum(b');
      assert b[..|b| - 1] == b';
      assert Checksum(b) == Checksum(b') + m * x;
      assert Sum(b) == t + x;
      assert Checksum(a + b) == Checksum(a + b') + (n + m) * x;
      Distribute(n, m, t, x);
    } else {
      assert a + b == a;
    }
  }

  lemma Distribute(n: int, m: int, t: int, x: int)
    ensures (n + m) * x == n * x + m * x && n * (t + x) == n * t + n * x
  {
  }

  /** The sum of the block values. */
  function Sum(bs: seq<int>): int
  {
    if bs == [] then 0 else Sum(bs[..|bs| - 1]) + bs[|bs| - 1]
  }
}
