/**
 * A pairing heap with handles, for the default comparator (less): the root
 * holds the largest element, and a handle returned by push lets update
 * change that node's element later.
 *
 * The tree keeps the original's left-child right-sibling shape: every node
 * has a first child and a next sibling, `Nil` standing for the empty
 * pointer. A handle (the node's shared pointer) is the node's `id`, a number
 * the heap hands out in push order. The tree is a value that the heap's
 * methods rebuild, so the prev back-pointers need no model: they only serve
 * to find a node's place among its siblings, which `Detach` finds by id.
 */
module PairingHeaps {
  import opened AocLib

  datatype Tree = Nil | Node(id: nat, elt: int, child: Tree, sibling: Tree)

  /** What one node holds: its handle and its element. */
  datatype Entry = Entry(handle: nat, elt: int)

  /** The entries of a node, its children and its later siblings. */
  function Entries(t: Tree): multiset<Entry>
  {
    match t
    case Nil => multiset{}
    case Node(i, e, c, s) => multiset{Entry(i, e)} + Entries(c) + Entries(s)
  }

  /** Every element in t, its children and its later siblings is at most b. */
  predicate BoundedBy(t: Tree, b: int)
  {
    t.Nil? || (t.elt <= b && BoundedBy(t.child, b) && BoundedBy(t.sibling, b))
  }

  /** A bound on a tree bounds every entry it holds. */
  lemma {:induction false} BoundedEntries(t: Tree, b: int)
    requires BoundedBy(t, b)
    ensures forall p :: p in Entries(t) ==> p.elt <= b
  {
    if t.Node? {
      BoundedEntries(t.child, b);
      BoundedEntries(t.sibling, b);
    }
  }

  /** A bound on a tree holds for any larger bound. */
  lemma {:induction false} BoundedMono(t: Tree, b: int, b': int)
    ensures BoundedBy(t, b) && b <= b' ==> BoundedBy(t, b')
  {
    if t.Node? {
      BoundedMono(t.child, b, b');
      BoundedMono(t.sibling, b, b');
    }
  }

  /** Heap order for less: nothing below a node is larger than the node's element. */
  predicate HeapOrdered(t: Tree)
  {
    t.Nil? || (BoundedBy(t.child, t.elt) && HeapOrdered(t.child) && HeapOrdered(t.sibling))
  }

  /** A root: a node without siblings. */
  predicate Lone(t: Tree)
  {
    t.Node? && t.sibling == Nil
  }

  /** A heap-ordered root, whose element is therefore the largest it holds. */
  predicate IsHeap(t: Tree)
  {
    Lone(t) && HeapOrdered(t)
  }

  predicate SameHandle(p: Entry, q: Entry)
  {
    p.handle == q.handle
  }

  /** No handle occurs twice. */
  ghost predicate Distinct(m: multiset<Entry>)
  {
    forall p, q {:trigger SameHandle(p, q)} :: p in m && q in m && SameHandle(p, q) ==> p == q && m[p] == 1
  }

  /** The root of a heap holds its largest element. */
  lemma RootIsMax(t: Tree)
    requires IsHeap(t)
    ensures Entry(t.id, t.elt) in Entries(t) && forall p :: p in Entries(t) ==> p.elt <= t.elt
  {
    BoundedEntries(t.child, t.elt);
  }

  /** A node splits into itself cut off from its siblings, and those siblings. */
  lemma CutSibling(t: Tree)
    requires t.Node?
    ensures Entries(t) == Entries(Node(t.id, t.elt, t.child, Nil)) + Entries(t.sibling)
  {
  }

  /** A node whose children lose the part f holds loses f. */
  lemma ShrinkChild(t: Tree, c': Tree, f: multiset<Entry>)
    requires t.Node? && Entries(t.child) == Entries(c') + f
    ensures Entries(t) == Entries(Node(t.id, t.elt, c', t.sibling)) + f
  {
  }

  /** A node whose later siblings lose the part f holds loses f. */
  lemma ShrinkSibling(t: Tree, s': Tree, f: multiset<Entry>)
    requires t.Node? && Entries(t.sibling) == Entries(s') + f
    ensures Entries(t) == Entries(Node(t.id, t.elt, t.child, s')) + f
  {
  }

  /** The handle id names a node of t, its siblings or their descendants. */
  predicate Holds(t: Tree, id: nat)
  {
    t.Node? && (t.id == id || Holds(t.child, id) || Holds(t.sibling, id))
  }

  /** Every entry's handle names a node of the tree. */
  lemma {:induction false} EntryHeld(t: Tree, p: Entry)
    requires p in Entries(t)
    ensures Holds(t, p.handle)
  {
    match t
    case Nil =>
    case Node(i, e, c, s) =>
      if p != Entry(i, e) {
        if p in Entries(c) {
          EntryHeld(c, p);
        } else {
          EntryHeld(s, p);
        }
      }
  }

  /**
   * insert_left: the lone node n becomes p's first child, p's old first
   * child its next sibling.
   */
  function InsertLeft(p: Tree, n: Tree): (r: Tree)
    requires p.Node? && Lone(n)
    ensures r.Node? && r.id == p.id && r.elt == p.elt && r.sibling == p.sibling
    ensures Entries(r) == Entries(p) + Entries(n)
    ensures HeapOrdered(p) && HeapOrdered(n) && n.elt <= p.elt ==> HeapOrdered(r)
  {
    var c := Node(n.id, n.elt, n.child, p.child);
    assert Entries(c) == Entries(n) + Entries(p.child);
    BoundedMono(n.child, n.elt, p.elt);
    Node(p.id, p.elt, c, p.sibling)
  }

  /**
   * pair_node::meld of two roots: the one whose element is not less than
   * the other's stays the root (the first one on a tie) and takes the other
   * as its first child.
   */
  function Meld(a: Tree, b: Tree): (r: Tree)
    requires Lone(a) && Lone(b)
    ensures Lone(r) && !(r.elt < a.elt) && !(r.elt < b.elt)
    ensures r.elt == a.elt || r.elt == b.elt
    ensures Entries(r) == Entries(a) + Entries(b)
    ensures IsHeap(a) && IsHeap(b) ==> IsHeap(r)
  {
    if a.elt < b.elt then InsertLeft(b, a) else InsertLeft(a, b)
  }

  /** What extract leaves of a tree, and the node it cut out (with its children), if any. */
  datatype Cut = Cut(rest: Tree, found: Option<Tree>)

  /**
   * pair_node::extract for a node other than the root: the node with handle
   * id is unlinked, its next sibling taking its place, and comes out alone
   * with its children. The search goes first child first, then siblings.
   */
  function Detach(t: Tree, id: nat): (cut: Cut)
    ensures cut.found.Some? ==> Lone(cut.found.value) && cut.found.value.id == id
  {
    match t
    case Nil => Cut(Nil, None)
    case Node(i, e, c, s) =>
      if i == id then Cut(s, Some(Node(i, e, c, Nil)))
      else
        var below := Detach(c, id);
        if below.found.Some? then Cut(Node(i, e, below.rest, s), below.found)
        else
          var after := Detach(s, id);
          Cut(Node(i, e, c, after.rest), after.found)
  }

  function EntriesOpt(t: Option<Tree>): multiset<Entry>
  {
    if t.Some? then Entries(t.value) else multiset{}
  }

  /** What extract leaves and what it cuts out add up to the tree. */
  lemma {:induction false} DetachContents(t: Tree, id: nat)
    ensures Entries(t) == Entries(Detach(t, id).rest) + EntriesOpt(Detach(t, id).found)
  {
    match t
    case Nil =>
    case Node(i, e, c, s) =>
      if i == id {
        CutSibling(t);
      } else {
        DetachContents(c, id);
        var below := Detach(c, id);
        if below.found.Some? {
          ShrinkChild(t, below.rest, EntriesOpt(below.found));
        } else {
          DetachContents(s, id);
          var after := Detach(s, id);
          ShrinkSibling(t, after.rest, EntriesOpt(after.found));
        }
      }
  }

  /**
   * A handle the tree holds is always found, and a root other than the
   * handled node stays the root, alone.
   */
  lemma {:induction false} DetachShape(t: Tree, id: nat)
    ensures Holds(t, id) ==> Detach(t, id).found.Some?
    ensures t.Node? && t.id != id ==> Detach(t, id).rest.Node? && Detach(t, id).rest.id == t.id
    ensures t.Node? && t.id != id ==> Detach(t, id).rest.elt == t.elt
    ensures Lone(t) && t.id != id ==> Lone(Detach(t, id).rest)
  {
    match t
    case Nil =>
    case Node(i, e, c, s) =>
      if i != id {
        DetachShape(c, id);
        if Detach(c, id).found.None? {
          DetachShape(s, id);
        }
      }
  }

  /** A bound on a tree holds for what extract leaves of it and for the node it cuts out. */
  lemma {:induction false} DetachBounded(t: Tree, id: nat, b: int)
    requires BoundedBy(t, b)
    ensures BoundedBy(Detach(t, id).rest, b)
    ensures Detach(t, id).found.Some? ==> BoundedBy(Detach(t, id).found.value, b)
  {
    match t
    case Nil =>
    case Node(i, e, c, s) =>
      if i != id {
        DetachBounded(c, id, b);
        if Detach(c, id).found.None? {
          DetachBounded(s, id, b);
        }
      }
  }

  /** Heap order survives in what extract leaves and in the node it cuts out. */
  lemma {:induction false} DetachOrder(t: Tree, id: nat)
    requires HeapOrdered(t)
    ensures HeapOrdered(Detach(t, id).rest)
    ensures Detach(t, id).found.Some? ==> HeapOrdered(Detach(t, id).found.value)
  {
    match t
    case Nil =>
    case Node(i, e, c, s) =>
      if i != id {
        DetachOrder(c, id);
        var below := Detach(c, id);
        if below.found.Some? {
          DetachBounded(c, id, e);
        } else {
          DetachOrder(s, id);
        }
      }
  }

  /** The node a handle names, with its children: the root itself, or what extract would cut out. */
  function Handled(t: Tree, id: nat): (h: Option<Tree>)
    requires t.Node?
    ensures h.Some? ==> h.value.Node? && h.value.id == id
  {
    if t.id == id then Some(t) else Detach(t, id).found
  }

  /** Every handle a tree holds names one of its nodes, whose entry is one of the tree's. */
  lemma HandledFound(t: Tree, id: nat)
    requires Holds(t, id)
    ensures Handled(t, id).Some? && Entry(id, Handled(t, id).value.elt) in Entries(t)
  {
    if t.id != id {
      DetachShape(t, id);
      DetachContents(t, id);
      var n := Detach(t, id).found.value;
      assert Entry(n.id, n.elt) in Entries(n);
    }
  }

  /** The entries of a list of trees (pop's list of children). */
  function EntriesOf(ts: seq<Tree>): multiset<Entry>
  {
    if ts == [] then multiset{} else EntriesOf(ts[..|ts| - 1]) + Entries(ts[|ts| - 1])
  }

  /** Every list entry is a heap on its own. */
  ghost predicate AllHeaps(ts: seq<Tree>)
  {
    forall k :: 0 <= k < |ts| ==> IsHeap(ts[k])
  }

  /** Appending a tree to a list adds its entries. */
  lemma OfSnoc(ts: seq<Tree>, t: Tree)
    ensures EntriesOf(ts + [t]) == EntriesOf(ts) + Entries(t)
  {
    assert (ts + [t])[..|ts|] == ts;
  }

  /** Extending a prefix of a list by one tree adds that tree's entries. */
  lemma OfPrefix(ts: seq<Tree>, k: nat)
    requires k < |ts|
    ensures EntriesOf(ts[..k + 1]) == EntriesOf(ts[..k]) + Entries(ts[k])
  {
    assert ts[..k + 1][..k] == ts[..k];
  }

  /**
   * pop's first pass as written: the iterator stands on a tree, melds it with
   * the next one, erases that one and then advances two places, which skips
   * the tree after the meld. The pass ends normally when the iterator is at
   * end() or on the last tree, and runs past end() (undefined behaviour in
   * C++) when the meld it just did used the list's last tree.
   */
  datatype Pass = Done(trees: seq<Tree>) | PastEnd(trees: seq<Tree>)

  function FirstPassAsWritten(l: seq<Tree>, it: nat): (p: Pass)
    requires it <= |l| && forall k :: 0 <= k < |l| ==> Lone(l[k])
    ensures |p.trees| <= |l|
    decreases |l| - it
  {
    if it + 1 < |l| then
      var l' := l[..it] + [Meld(l[it], l[it + 1])] + l[it + 2..];
      if it + 2 > |l'| then PastEnd(l')
      else FirstPassAsWritten(l', it + 2)
    else Done(l)
  }

  /** With two children the iterator passes end() after the first meld. */
  lemma FirstPassRunsPastEnd(a: Tree, b: Tree)
    requires Lone(a) && Lone(b)
    ensures FirstPassAsWritten([a, b], 0) == PastEnd([Meld(a, b)])
  {
    assert [a, b][..0] + [Meld(a, b)] + [a, b][2..] == [Meld(a, b)];
  }

  /** With four children only the first two are paired: three trees go on to the second pass, not two. */
  lemma FirstPassSkipsATree(a: Tree, b: Tree, c: Tree, d: Tree)
    requires Lone(a) && Lone(b) && Lone(c) && Lone(d)
    ensures FirstPassAsWritten([a, b, c, d], 0) == Done([Meld(a, b), c, d])
  {
    assert [a, b, c, d][..0] + [Meld(a, b)] + [a, b, c, d][2..] == [Meld(a, b), c, d];
  }

  /**
   * pop's first pass as intended: left to right, each consecutive pair is
   * melded in place of the pair, an odd last tree staying as it is. Half
   * as many trees (rounded up) come out, holding the same entries.
   */
  method FirstPass(children: seq<Tree>) returns (paired: seq<Tree>)
    requires AllHeaps(children)
    ensures |paired| == (|children| + 1) / 2 && AllHeaps(paired)
    ensures EntriesOf(paired) == EntriesOf(children)
  {
    paired := [];
    var k := 0;
    while k < |children|
      invariant k <= |children|
      invariant 2 * |paired| == k || (2 * |paired| == k + 1 && k == |children|)
      invariant AllHeaps(paired)
      invariant EntriesOf(paired) == EntriesOf(children[..k])
      decreases |children| - k
    {
      paired, k := PairStep(paired, children, k);
    }
    assert children[..k] == children;
  }

  /**
   * The first pass's step: trees k and k+1 are melded and the meld joins the
   * output; an odd last tree joins it as it is.
   */
  method PairStep(paired: seq<Tree>, children: seq<Tree>, k: nat) returns (paired': seq<Tree>, k': nat)
    requires k < |children| && AllHeaps(children) && AllHeaps(paired)
    requires EntriesOf(paired) == EntriesOf(children[..k])
    ensures k' == if k + 1 < |children| then k + 2 else k + 1
    ensures |paired'| == |paired| + 1 && AllHeaps(paired') && EntriesOf(paired') == EntriesOf(children[..k'])
  {
    if k + 1 < |children| {
      paired' := PairNext(paired, children, k);
      k' := k + 2;
    } else {
      paired' := KeepLast(paired, children, k);
      k' := k + 1;
    }
  }

  /** A list of heaps with one more heap at its end. */
  lemma AllHeapsSnoc(ts: seq<Tree>, t: Tree)
    requires AllHeaps(ts) && IsHeap(t)
    ensures AllHeaps(ts + [t])
  {
  }

  method PairNext(paired: seq<Tree>, children: seq<Tree>, k: nat) returns (paired': seq<Tree>)
    requires k + 1 < |children| && AllHeaps(children) && AllHeaps(paired)
    requires EntriesOf(paired) == EntriesOf(children[..k])
    ensures |paired'| == |paired| + 1 && AllHeaps(paired') && EntriesOf(paired') == EntriesOf(children[..k + 2])
  {
    var m := Meld(children[k], children[k + 1]);
    paired' := paired + [m];
    AllHeapsSnoc(paired, m);
    OfSnoc(paired, m);
    OfPrefix(children, k);
    OfPrefix(children, k + 1);
  }

  method KeepLast(paired: seq<Tree>, children: seq<Tree>, k: nat) returns (paired': seq<Tree>)
    requires k < |children| && AllHeaps(children) && AllHeaps(paired)
    requires EntriesOf(paired) == EntriesOf(children[..k])
    ensures |paired'| == |paired| + 1 && AllHeaps(paired') && EntriesOf(paired') == EntriesOf(children[..k + 1])
  {
    paired' := paired + [children[k]];
    AllHeapsSnoc(paired, children[k]);
    OfSnoc(paired, children[k]);
    OfPrefix(children, k);
  }

  /**
   * The two passes of pop over the root's former children: the first pass
   * pairs them up; then right to left, every tree is melded into the result,
   * the last one first.
   */
  method TwoPass(children: seq<Tree>) returns (r: Tree)
    requires AllHeaps(children)
    ensures r == Nil <==> children == []
    ensures r != Nil ==> IsHeap(r)
    ensures Entries(r) == EntriesOf(children)
  {
    var cs := FirstPass(children);
    r := Nil;
    while cs != []
      invariant (r == Nil && cs == []) ==> children == []
      invariant r != Nil ==> children != []
      invariant AllHeaps(cs) && (r != Nil ==> IsHeap(r))
      invariant EntriesOf(cs) + Entries(r) == EntriesOf(children)
      decreases |cs|
    {
      r, cs := MeldLast(r, cs);
    }
  }

  /** The second pass's step: the last tree of the list is melded into the result (or becomes it). */
  method MeldLast(r: Tree, cs: seq<Tree>) returns (r': Tree, cs': seq<Tree>)
    requires cs != [] && AllHeaps(cs) && (r != Nil ==> IsHeap(r))
    ensures cs' == cs[..|cs| - 1] && AllHeaps(cs') && IsHeap(r')
    ensures EntriesOf(cs') + Entries(r') == EntriesOf(cs) + Entries(r)
  {
    var last := cs[|cs| - 1];
    r' := if r == Nil then last else Meld(r, last);
    cs' := cs[..|cs| - 1];
  }

  /**
   * pop's extraction loop: while the node has a first child, that child is
   * extracted and appended to the list of children, so the list ends up
   * holding the children first child first, each cut off from its siblings.
   */
  method ExtractChildren(t: Tree) returns (children: seq<Tree>)
    requires IsHeap(t)
    ensures AllHeaps(children) && (children == [] <==> t.child == Nil)
    ensures EntriesOf(children) == Entries(t.child)
  {
    children := [];
    var rest := t.child;
    while rest != Nil
      invariant AllHeaps(children) && HeapOrdered(rest) && (children == [] ==> rest == t.child)
      invariant EntriesOf(children) + Entries(rest) == Entries(t.child)
      decreases rest
    {
      children := ExtractFirst(children, rest);
      rest := rest.sibling;
    }
  }

  /** The extraction step: the first remaining child comes out alone and joins the end of the list. */
  method ExtractFirst(children: seq<Tree>, rest: Tree) returns (children': seq<Tree>)
    requires rest.Node? && AllHeaps(children) && HeapOrdered(rest)
    ensures children' == children + [Node(rest.id, rest.elt, rest.child, Nil)] && AllHeaps(children')
    ensures EntriesOf(children') + Entries(rest.sibling) == EntriesOf(children) + Entries(rest)
  {
    var n := Node(rest.id, rest.elt, rest.child, Nil);
    assert IsHeap(n);
    children' := children + [n];
    OfSnoc(children, n);
    CutSibling(rest);
  }

  /**
   * What pop leaves of a heap: its root's children, extracted and combined
   * by the two passes. The root's entry is all that goes.
   */
  method PopRoot(t: Tree) returns (r: Tree)
    requires IsHeap(t)
    ensures r == Nil <==> t.child == Nil
    ensures r != Nil ==> IsHeap(r)
    ensures Entries(t) == multiset{Entry(t.id, t.elt)} + Entries(r)
  {
    var children := ExtractChildren(t);
    r := TwoPass(children);
  }

  /** A lone node holds its own entry and its children's. */
  lemma LoneEntries(n: Tree)
    requires Lone(n)
    ensures Entries(n) == multiset{Entry(n.id, n.elt)} + Entries(n.child)
  {
  }

  /**
   * update as written, for a handle below the root: the node is cut out
   * with its children, its element replaced and the node melded back in;
   * its children stay under it. The entries come out right; the order
   * does not (UpdateAsWrittenBreaksOrder).
   */
  function UpdateBelowRootAsWritten(t: Tree, id: nat, value: int): (r: Tree)
    requires Lone(t) && t.id != id && Holds(t, id)
    ensures Handled(t, id).Some?
    ensures Entries(r) == Entries(t) - multiset{Entry(id, Handled(t, id).value.elt)} + multiset{Entry(id, value)}
  {
    DetachShape(t, id);
    DetachContents(t, id);
    var cut := Detach(t, id);
    var n := cut.found.value;
    LoneEntries(n);
    LoneEntries(Node(n.id, value, n.child, Nil));
    Meld(cut.rest, Node(n.id, value, n.child, Nil))
  }

  /**
   * Pushing 4, 5 and 10 builds 10 -> 5 -> 4; updating the 5 to 1 in that way
   * leaves the 4 below the 1, so the tree is no longer heap-ordered, and a
   * pop would make the 1 the top while the 4 is still held.
   */
  lemma UpdateAsWrittenBreaksOrder()
    ensures var t := Node(2, 10, Node(1, 5, Node(0, 4, Nil, Nil), Nil), Nil);
      var t' := UpdateBelowRootAsWritten(t, 1, 1);
      && IsHeap(t)
      && t' == Node(2, 10, Node(1, 1, Node(0, 4, Nil, Nil), Nil), Nil)
      && !HeapOrdered(t')
  {
    var leaf := Node(0, 4, Nil, Nil);
    var t := Node(2, 10, Node(1, 5, leaf, Nil), Nil);
    assert Entries(leaf) == multiset{Entry(0, 4)};
    assert Entries(Node(1, 5, leaf, Nil)) == multiset{Entry(1, 5), Entry(0, 4)};
    assert Holds(t, 1);
    assert Detach(t, 1) == Cut(Node(2, 10, Nil, Nil), Some(Node(1, 5, leaf, Nil)));
    assert Entry(0, 4) in Entries(leaf);
  }

  /** Adding an entry with a handle no entry has keeps the handles distinct. */
  lemma DistinctAdd(m: multiset<Entry>, x: Entry)
    requires Distinct(m) && forall p :: p in m ==> p.handle != x.handle
    ensures Distinct(m + multiset{x})
  {
  }

  /** A part of an entry multiset with distinct handles has distinct handles, and no other entries. */
  lemma DistinctPart(m: multiset<Entry>, part: multiset<Entry>, rest: multiset<Entry>)
    requires m == part + rest && Distinct(m)
    ensures Distinct(part) && forall p :: p in part ==> p in m
  {
    forall p, q | p in part && q in part && SameHandle(p, q)
      ensures p == q && part[p] == 1
    {
      assert m[p] == part[p] + rest[p];
    }
  }

  /**
   * Replacing the entry of a handle by one with the same handle keeps the
   * handles distinct and the size, and brings in no other handle.
   */
  lemma DistinctReplace(m: multiset<Entry>, x: Entry, y: Entry)
    requires Distinct(m) && x in m && x.handle == y.handle
    ensures Distinct(m - multiset{x} + multiset{y}) && |m - multiset{x} + multiset{y}| == |m|
    ensures forall p :: p in m - multiset{x} + multiset{y} ==> p == y || p in m
  {
    var rest := m - multiset{x};
    assert m == rest + multiset{x};
    DistinctPart(m, rest, multiset{x});
    assert SameHandle(x, x) && m[x] == 1;
    forall p | p in rest
      ensures p.handle != y.handle
    {
      assert SameHandle(p, x) ==> p == x;
    }
    DistinctAdd(rest, y);
  }

  /**
   * update's corrected path for a handle below the root: the node is cut
   * out, its children are combined as pop combines a root's and melded back
   * into what remains. Only the node's own entry goes.
   */
  method RemoveBelowRoot(t: Tree, id: nat) returns (r: Tree)
    requires IsHeap(t) && t.id != id && Holds(t, id)
    ensures (r == Nil || IsHeap(r)) && Handled(t, id).Some?
    ensures Entries(t) == Entries(r) + multiset{Entry(id, Handled(t, id).value.elt)}
  {
    DetachShape(t, id);
    DetachContents(t, id);
    DetachOrder(t, id);
    var rest := Detach(t, id).rest;
    var node := Detach(t, id).found.value;
    var sub := PopRoot(node);
    r := if sub == Nil then rest else Meld(rest, sub);
  }

  /**
   * update on the tree: a handle on the root has the root popped; a handle
   * below it has its node removed (RemoveBelowRoot). Either way the node
   * comes back alone, with the new element, melded into what is left.
   */
  method UpdateTree(t: Tree, handle: nat, value: int) returns (t': Tree)
    requires IsHeap(t) && Holds(t, handle)
    ensures IsHeap(t') && Handled(t, handle).Some?
    ensures Entries(t') == Entries(t) - multiset{Entry(handle, Handled(t, handle).value.elt)} + multiset{Entry(handle, value)}
  {
    HandledFound(t, handle);
    var rest: Tree;
    if handle == t.id {
      rest := PopRoot(t);
    } else {
      rest := RemoveBelowRoot(t, handle);
    }
    var lone := Node(handle, value, Nil, Nil);
    assert IsHeap(lone) && Entries(lone) == multiset{Entry(handle, value)};
    t' := if rest == Nil then lone else Meld(rest, lone);
  }

  /**
   * The heap's invariant: the root is a heap (or there is none), the size
   * counter counts the entries, and the handles are distinct and all below
   * the next handle to be handed out.
   */
  ghost predicate Sound(root: Tree, size: nat, nextId: nat)
  {
    && (root == Nil || IsHeap(root))
    && size == |Entries(root)|
    && Distinct(Entries(root))
    && (forall p :: p in Entries(root) ==> p.handle < nextId)
  }

  /** Replacing one entry by another with the same handle in a heap keeps the invariant. */
  lemma ReplaceSound(t: Tree, t': Tree, size: nat, nextId: nat, x: Entry, y: Entry)
    requires Sound(t, size, nextId) && x in Entries(t) && x.handle == y.handle
    requires IsHeap(t') && Entries(t') == Entries(t) - multiset{x} + multiset{y}
    ensures Sound(t', size, nextId)
  {
    DistinctReplace(Entries(t), x, y);
  }

  class PairingHeap {
    var root: Tree
    var size: nat
    var nextId: nat

    ghost predicate Valid()
      reads this
    {
      Sound(root, size, nextId)
    }

    constructor ()
      ensures Valid() && Entries(root) == multiset{} && size == 0
    {
      root, size, nextId := Nil, 0, 0;
    }

    /** size: the number of elements held. */
    function Size(): (n: nat)
      reads this
      requires Valid()
      ensures n == |Entries(root)|
    {
      size
    }

    /** empty: the size counter is zero exactly when nothing is held. */
    function Empty(): (e: bool)
      reads this
      requires Valid()
      ensures e <==> Entries(root) == multiset{}
    {
      size == 0
    }

    /** top: the root's element, the largest element held. */
    function Top(): (t: int)
      reads this
      requires Valid() && root != Nil
      ensures Entry(root.id, t) in Entries(root) && forall p :: p in Entries(root) ==> p.elt <= t
    {
      RootIsMax(root);
      root.elt
    }

    /** The heap's meld: a root joins the heap's root (or becomes it), and the size counter grows by otherSize. */
    method MeldIn(other: Tree, otherSize: nat)
      requires Lone(other) && (root == Nil || Lone(root))
      modifies this
      ensures root == if old(root) == Nil then other else Meld(old(root), other)
      ensures size == old(size) + otherSize && nextId == old(nextId)
    {
      if root != Nil {
        root := Meld(root, other);
      } else {
        root := other;
      }
      size := size + otherSize;
    }

    /**
     * push: a new one-node tree with a fresh handle is melded in; the size
     * grows by one, and the handle names the new node.
     */
    method Push(value: int) returns (handle: nat)
      requires Valid()
      modifies this
      ensures Valid() && Holds(root, handle)
      ensures Entries(root) == Entries(old(root)) + multiset{Entry(handle, value)} && size == old(size) + 1
    {
      var node := Node(nextId, value, Nil, Nil);
      handle := nextId;
      ghost var added := Entries(root) + multiset{Entry(handle, value)};
      assert IsHeap(node);
      DistinctAdd(Entries(root), Entry(handle, value));
      nextId := nextId + 1;
      MeldIn(node, 1);
      assert Entries(root) == added;
      EntryHeld(root, Entry(handle, value));
    }

    /**
     * pop: the root's children are extracted, the root is dropped and the
     * children are combined by the two passes. Exactly the top's entry goes;
     * the size drops by one.
     */
    method Pop()
      requires Valid() && root != Nil
      modifies this
      ensures Valid() && nextId == old(nextId)
      ensures Entries(root) == Entries(old(root)) - multiset{Entry(old(root).id, old(Top()))}
      ensures size == old(size) - 1
    {
      var r := PopRoot(root);
      DistinctPart(Entries(root), Entries(r), multiset{Entry(root.id, root.elt)});
      root := r;
      size := size - 1;
    }

    /**
     * update: a handle on the root pops it and melds it back alone with the
     * new element. A handle below the root has its node cut out; the node's
     * children are combined as pop combines a root's and melded back, then
     * the node itself, alone, with the new element. The handle's entry is
     * replaced by one with the new element and nothing else changes.
     */
    method Update(handle: nat, value: int)
      requires Valid() && Holds(root, handle)
      modifies this
      ensures Valid() && nextId == old(nextId) && size == old(size)
      ensures Handled(old(root), handle).Some?
        && Entries(root) == Entries(old(root)) - multiset{Entry(handle, Handled(old(root), handle).value.elt)}
                              + multiset{Entry(handle, value)}
    {
      ghost var oldRoot := root;
      HandledFound(root, handle);
      root := UpdateTree(root, handle, value);
      ReplaceSound(oldRoot, root, size, nextId, Entry(handle, Handled(oldRoot, handle).value.elt), Entry(handle, value));
    }
  }
}
