/**
 * A heap that holds at most max_size elements. With the default comparator
 * (less) the container is a binary max-heap laid out in a vector, and once
 * full a new value is admitted only by evicting the top: the heap keeps the
 * max_size smallest values it has been offered.
 *
 * The two standard heap algorithms the class relies on, push_heap and
 * pop_heap, are modelled by sift-up and sift-down on the element sequence
 * and proved against what the C++ standard promises of them.
 */
module BoundedHeaps {

  /** The position of node i's parent in the implicit binary tree. */
  function Parent(i: nat): nat
    requires i > 0
  {
    (i - 1) / 2
  }

  /** Max-heap order: no element is larger than its parent. */
  ghost predicate HeapOrdered(c: seq<int>)
  {
    forall i :: 0 < i < |c| ==> c[Parent(i)] >= c[i]
  }

  /** Every element is bounded by all its ancestors, in particular by the root. */
  lemma {:induction false} AncestorBound(c: seq<int>, i: nat)
    requires HeapOrdered(c) && i < |c|
    ensures c[i] <= c[0]
    decreases i
  {
    if i > 0 {
      AncestorBound(c, Parent(i));
    }
  }

  /** The front of a non-empty heap is its largest element. */
  lemma TopIsMax(c: seq<int>)
    requires HeapOrdered(c) && |c| > 0
    ensures forall x :: x in c ==> x <= c[0]
  {
    forall x | x in c
      ensures x <= c[0]
    {
      var i :| 0 <= i < |c| && c[i] == x;
      AncestorBound(c, i);
    }
  }

  /** Any prefix of a heap is a heap. */
  lemma PrefixOrdered(c: seq<int>, n: nat)
    requires HeapOrdered(c) && n <= |c|
    ensures HeapOrdered(c[..n])
  {
    assert forall i :: 0 < i < n ==> c[..n][i] == c[i] && c[..n][Parent(i)] == c[Parent(i)];
  }

  /** Exchanging two elements. */
  function Swap(c: seq<int>, i: nat, j: nat): (r: seq<int>)
    requires i < |c| && j < |c|
    ensures |r| == |c| && r[i] == c[j] && r[j] == c[i]
    ensures forall k :: 0 <= k < |c| && k != i && k != j ==> r[k] == c[k]
    ensures multiset(r) == multiset(c)
  {
    var r := c[i := c[j]][j := c[i]];
    assert multiset(c[i := c[j]]) == multiset(c) - multiset{c[i]} + multiset{c[j]};
    r
  }

  /**
   * Heap order holds except that the element at k may be larger than its
   * parent; k's parent still bounds k's children.
   */
  ghost predicate OrderedExceptUp(c: seq<int>, k: nat)
  {
    && (forall i :: 0 < i < |c| && i != k ==> c[Parent(i)] >= c[i])
    && (forall i :: 0 < i < |c| && Parent(i) == k && k > 0 ==> c[Parent(k)] >= c[i])
  }

  /**
   * Heap order holds except that the element at k may be smaller than its
   * children; k's parent still bounds them.
   */
  ghost predicate OrderedExceptDown(c: seq<int>, k: nat)
  {
    && (forall i :: 0 < i < |c| && Parent(i) != k ==> c[Parent(i)] >= c[i])
    && (forall i :: 0 < i < |c| && Parent(i) == k && k > 0 ==> c[Parent(k)] >= c[i])
  }

  /**
   * std::push_heap: given a heap followed by one new element, moves the new
   * element up until the whole range is a heap again; nothing is added or lost.
   */
  method PushHeap(h: seq<int>) returns (r: seq<int>)
    requires |h| > 0 && HeapOrdered(h[..|h| - 1])
    ensures |r| == |h| && HeapOrdered(r)
    ensures multiset(r) == multiset(h)
  {
    r := h;
    var k: nat := |h| - 1;
    while k > 0 && r[Parent(k)] < r[k]
      invariant |r| == |h| && k < |r|
      invariant OrderedExceptUp(r, k)
      invariant multiset(r) == multiset(h)
      decreases k
    {
      r, k := SiftUpLevel(r, k);
    }
  }

  /** One level of sift-up: exchanging k with its smaller parent moves the defect up to the parent. */
  method SiftUpLevel(r: seq<int>, k: nat) returns (r': seq<int>, p: nat)
    requires 0 < k < |r| && OrderedExceptUp(r, k) && r[Parent(k)] < r[k]
    ensures p == Parent(k) && |r'| == |r| && multiset(r') == multiset(r)
    ensures OrderedExceptUp(r', p)
  {
    p := Parent(k);
    r' := Swap(r, p, k);
    forall i | 0 < i < |r'| && i != p
      ensures r'[Parent(i)] >= r'[i]
    {
      if Parent(i) == k {
        assert r[Parent(i)] >= r[i];
      } else if i != k && Parent(i) == p {
        assert r[Parent(i)] >= r[i];
      }
    }
  }

  /**
   * std::pop_heap: exchanges the largest element with the last one and
   * moves the new front down until everything but the last element is a
   * heap again; nothing is added or lost.
   */
  method PopHeap(h: seq<int>) returns (r: seq<int>)
    requires |h| > 0 && HeapOrdered(h)
    ensures |r| == |h| && r[|r| - 1] == h[0]
    ensures HeapOrdered(r[..|r| - 1])
    ensures multiset(r) == multiset(h)
  {
    var n := |h| - 1;
    r := Swap(h, 0, n);
    SiftDownStart(h, r, n);
    var k: nat := 0;
    while true
      invariant |r| == |h| && k <= n && r[n] == h[0]
      invariant OrderedExceptDown(r[..n], k)
      invariant multiset(r) == multiset(h)
      decreases n - k
    {
      var next;
      r, next := SiftDownLevel(r, n, k);
      if next == k {
        return;
      }
      k := next;
    }
  }

  /**
   * One level of sift-down: when the element at k is smaller than its larger
   * child the two are exchanged and the defect moves down to that child;
   * otherwise the range is already a heap.
   */
  method SiftDownLevel(r: seq<int>, n: nat, k: nat) returns (r': seq<int>, next: nat)
    requires n < |r| && k <= n && OrderedExceptDown(r[..n], k)
    ensures |r'| == |r| && r'[n] == r[n] && multiset(r') == multiset(r)
    ensures next == k ==> r' == r && HeapOrdered(r[..n])
    ensures next != k ==> k < next <= n && OrderedExceptDown(r'[..n], next)
  {
    var left, right := 2 * k + 1, 2 * k + 2;
    var big := k;
    if left < n && r[left] > r[big] {
      big := left;
    }
    if right < n && r[right] > r[big] {
      big := right;
    }
    if big == k {
      SiftDownDone(r, n, k);
      return r, k;
    }
    SiftDownStep(r, n, k, big);
    r' := Swap(r, k, big);
    next := big;
  }

  /** After the front is exchanged with the last element, only the new front may be out of order. */
  lemma SiftDownStart(h: seq<int>, r: seq<int>, n: nat)
    requires HeapOrdered(h) && n + 1 == |h| && r == Swap(h, 0, n)
    ensures OrderedExceptDown(r[..n], 0)
  {
    forall i | 0 < i < n && Parent(i) != 0
      ensures r[..n][Parent(i)] >= r[..n][i]
    {
      assert r[i] == h[i] && r[Parent(i)] == h[Parent(i)];
    }
  }

  /** Sift-down stops when the element at k is at least both children: the range is a heap. */
  lemma SiftDownDone(r: seq<int>, n: nat, k: nat)
    requires n < |r| && k <= n && OrderedExceptDown(r[..n], k)
    requires 2 * k + 1 < n ==> r[2 * k + 1] <= r[k]
    requires 2 * k + 2 < n ==> r[2 * k + 2] <= r[k]
    ensures HeapOrdered(r[..n])
  {
    forall i | 0 < i < n
      ensures r[..n][Parent(i)] >= r[..n][i]
    {
      if Parent(i) == k {
        assert i == 2 * k + 1 || i == 2 * k + 2;
      }
    }
  }

  /** One step of sift-down: swapping k with its larger child moves the defect down to that child. */
  lemma SiftDownStep(r: seq<int>, n: nat, k: nat, big: nat)
    requires n < |r| && k < big < n && OrderedExceptDown(r[..n], k)
    requires big == 2 * k + 1 || big == 2 * k + 2
    requires r[big] > r[k]
    requires 2 * k + 1 < n ==> r[2 * k + 1] <= r[big]
    requires 2 * k + 2 < n ==> r[2 * k + 2] <= r[big]
    ensures OrderedExceptDown(Swap(r, k, big)[..n], big)
  {
    var s := Swap(r, k, big);
    forall i | 0 < i < n && Parent(i) != big
      ensures s[..n][Parent(i)] >= s[..n][i]
    {
      assert r[..n][i] == r[i];
      if i == big {
      } else if Parent(i) == k {
        assert i == 2 * k + 1 || i == 2 * k + 2;
      } else if i == k {
        assert r[..n][Parent(k)] >= r[..n][big];
      } else {
        assert r[..n][Parent(i)] >= r[..n][i];
      }
    }
    forall i | 0 < i < n && Parent(i) == big
      ensures s[..n][Parent(big)] >= s[..n][i]
    {
      assert r[..n][Parent(i)] >= r[..n][i];
    }
  }

  class BoundedHeap {
    var c: seq<int>
    const maxSize: nat

    ghost predicate Valid()
      reads this
    {
      HeapOrdered(c) && |c| <= maxSize
    }

    constructor (maxSize: nat)
      ensures Valid() && c == [] && this.maxSize == maxSize
    {
      c := [];
      this.maxSize := maxSize;
    }

    /** top: the largest element held. */
    function Top(): (t: int)
      reads this
      requires Valid() && |c| > 0
      ensures t in c && forall x :: x in c ==> x <= t
    {
      TopIsMax(c);
      c[0]
    }

    /** pop: removes exactly one occurrence of the top. */
    method Pop()
      requires Valid() && |c| > 0
      modifies this
      ensures Valid() && |c| == |old(c)| - 1
      ensures multiset(c) == multiset(old(c)) - multiset{old(Top())}
    {
      var h := PopHeap(c);
      assert h == h[..|h| - 1] + [h[|h| - 1]];
      c := h[..|h| - 1];
    }

    /**
     * should_insert: always yes below capacity; when full, yes exactly when
     * the top is not less than value, and then the top is popped first.
     * A full heap must be non-empty, since top is read (so max_size > 0).
     */
    method ShouldInsert(value: int) returns (insert: bool)
      requires Valid() && (|c| == maxSize ==> |c| > 0)
      modifies this
      ensures Valid()
      ensures insert <==> old(|c|) < maxSize || !(old(Top()) < value)
      ensures old(|c|) < maxSize ==> c == old(c)
      ensures old(|c|) == maxSize && insert ==>
        |c| == maxSize - 1 && multiset(c) == multiset(old(c)) - multiset{old(Top())}
      ensures !insert ==> c == old(c)
    {
      if |c| < maxSize {
        return true;
      }
      if !(Top() < value) {
        Pop();
        return true;
      }
      return false;
    }

    /**
     * push: below capacity the value is added; when full it replaces the top
     * if it is not larger, and is dropped otherwise. The size never exceeds
     * max_size.
     */
    method Push(value: int)
      requires Valid() && maxSize > 0
      modifies this
      ensures Valid()
      ensures multiset(c) == Pushed(multiset(old(c)), |old(c)|, maxSize, value, if |old(c)| > 0 then old(Top()) else value)
    {
      var insert := ShouldInsert(value);
      if insert {
        var h := PushHeap(c + [value]);
        assert (c + [value])[..|c|] == c;
        c := h;
      }
    }
  }

  /**
   * The contents after a push, in terms of the contents before: the value
   * joins below capacity; at capacity it replaces the top when not larger.
   */
  function Pushed(m: multiset<int>, n: nat, maxSize: nat, value: int, top: int): multiset<int>
  {
    if n < maxSize then m + multiset{value}
    else if !(top < value) then m - multiset{top} + multiset{value}
    else m
  }

  /**
   * A full bounded heap keeps the smallest values: whatever a push leaves
   * out (the old top, or the value itself) is at least every value kept.
   */
  lemma {:induction false} PushKeepsSmallest(m: multiset<int>, maxSize: nat, value: int, top: int)
    requires |m| == maxSize > 0 && top in m && forall x :: x in m ==> x <= top
    ensures var kept := Pushed(m, |m|, maxSize, value, top);
      var dropped := if !(top < value) then top else value;
      && |kept| == maxSize
      && (forall x :: x in kept ==> x <= dropped)
      && kept + multiset{dropped} == m + multiset{value}
  {
    var kept := Pushed(m, |m|, maxSize, value, top);
    if !(top < value) {
      assert kept == m - multiset{top} + multiset{value};
      forall x | x in kept
        ensures x <= top
      {
        if x != value {
          assert x in m;
        }
      }
    }
  }
}
