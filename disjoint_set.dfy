/**
 * Union-find with union by size and path halving. Nodes are numbered by the
 * id new_set hands out (0, 1, 2, ...); a node pointer of the original is its
 * id here, since every node lives in the id-keyed node table.
 *
 * Beside the concrete parent and size arrays the class keeps two ghost
 * arrays: `root`, the representative every node reaches by following
 * parents, and `dist`, the number of parent steps to get there, which makes
 * the parent chains acyclic and bounds find's loop.
 */
module DisjointSets {
  import opened AocLib

  /** The nodes whose representative is r. */
  function Members(root: seq<nat>, r: nat): (m: set<nat>)
    ensures forall i: nat :: i in m <==> i < |root| && root[i] == r
  {
    set i: nat | i < |root| && root[i] == r
  }

  /** The representatives: nodes that are their own root. */
  function Roots(root: seq<nat>): (rs: set<nat>)
    ensures forall r: nat :: r in rs <==> r < |root| && root[r] == r
  {
    set r: nat | r < |root| && root[r] == r
  }

  /** The nodes below n, as a set. */
  function Below(n: nat): (s: set<nat>)
    ensures forall i: nat :: i in s <==> i < n
    ensures |s| == n
  {
    if n == 0 then {} else Below(n - 1) + {n - 1}
  }

  /** Every node is a member of its root's set and of no other. */
  lemma MembersPartition(root: seq<nat>, r1: nat, r2: nat)
    requires forall i :: 0 <= i < |root| ==> root[i] < |root| && root[root[i]] == root[i]
    requires r1 != r2
    ensures Members(root, r1) * Members(root, r2) == {}
    ensures forall i :: 0 <= i < |root| ==> i in Members(root, root[i]) && root[i] in Roots(root)
  {
  }

  /** There are never more sets than nodes, and no set is larger than the node count. */
  lemma CountBounds(root: seq<nat>, r: nat)
    ensures |Roots(root)| <= |root|
    ensures |Members(root, r)| <= |root|
  {
    assert Roots(root) <= Below(|root|);
    assert Members(root, r) <= Below(|root|);
    SubsetCard(Roots(root), Below(|root|));
    SubsetCard(Members(root, r), Below(|root|));
  }

  lemma SubsetCard(a: set<nat>, b: set<nat>)
    requires a <= b
    ensures |a| <= |b|
  {
    assert b == a + (b - a);
  }

  /** Merging root y into root x: y's members now have root x, every other node keeps its root. */
  function Relink(root: seq<nat>, x: nat, y: nat): (r: seq<nat>)
    ensures |r| == |root|
    ensures forall i :: 0 <= i < |root| ==> r[i] == if root[i] == y then x else root[i]
  {
    seq(|root|, i requires 0 <= i < |root| => if root[i] == y then x else root[i])
  }

  /** After relinking, x's set is the union of the two old sets, y is no longer a root, other sets are unchanged. */
  lemma RelinkSets(root: seq<nat>, x: nat, y: nat)
    requires forall i :: 0 <= i < |root| ==> root[i] < |root| && root[root[i]] == root[i]
    requires x < |root| && y < |root| && root[x] == x && root[y] == y && x != y
    ensures Members(Relink(root, x, y), x) == Members(root, x) + Members(root, y)
    ensures Members(root, x) * Members(root, y) == {}
    ensures forall r: nat :: r != x && r != y ==> Members(Relink(root, x, y), r) == Members(root, r)
    ensures Roots(Relink(root, x, y)) == Roots(root) - {y}
    ensures |Roots(Relink(root, x, y))| == |Roots(root)| - 1
  {
    var r := Relink(root, x, y);
    assert Roots(r) == Roots(root) - {y};
  }

  /**
   * Node i of the forest: its parent and root are nodes, its root is its
   * own parent, a node that is its own parent is its own root, its parent
   * has the same root, and its parent is strictly closer to the root
   * (dist 0 exactly at the root).
   */
  ghost predicate NodeOk(parent: seq<nat>, root: seq<nat>, dist: seq<nat>, i: nat)
    requires |root| == |parent| && |dist| == |parent| && i < |parent|
  {
    && parent[i] < |parent| && root[i] < |parent|
    && parent[root[i]] == root[i]
    && (parent[i] == i ==> root[i] == i)
    && root[parent[i]] == root[i]
    && (dist[i] == 0 <==> parent[i] == i)
    && (parent[i] != i ==> dist[parent[i]] < dist[i])
  }

  /** Every node is in order, so parent chains are acyclic and end at the node's root. */
  ghost predicate Forest(parent: seq<nat>, root: seq<nat>, dist: seq<nat>)
  {
    && |root| == |parent| && |dist| == |parent|
    && (forall i :: 0 <= i < |parent| ==> parent[i] < |parent| && root[i] < |parent|)
    && (forall i: nat :: i < |parent| ==> NodeOk(parent, root, dist, i))
  }

  /** A root's size is the number of nodes in its set. */
  ghost predicate SizeOk(size: seq<nat>, root: seq<nat>, r: nat)
    requires |size| == |root| && r < |root|
  {
    root[r] == r ==> size[r] == |Members(root, r)|
  }

  /** The whole union-find state: a forest, root sizes that count their sets, and the number of sets. */
  ghost predicate ValidForest(parent: seq<nat>, size: seq<nat>, root: seq<nat>, dist: seq<nat>, setCount: nat)
  {
    && Forest(parent, root, dist) && |size| == |parent|
    && (forall r: nat :: r < |parent| ==> SizeOk(size, root, r))
    && setCount == |Roots(root)|
  }

  /** new_set keeps the forest valid: the new node is a root of its own, of size 1. */
  lemma AddSingleton(parent: seq<nat>, size: seq<nat>, root: seq<nat>, dist: seq<nat>, setCount: nat)
    requires ValidForest(parent, size, root, dist, setCount)
    ensures var n := |parent|;
      && ValidForest(parent + [n], size + [1], root + [n], dist + [0], setCount + 1)
      && Members(root + [n], n) == {n}
  {
    var n := |parent|;
    var parent', size', root', dist' := parent + [n], size + [1], root + [n], dist + [0];
    forall i: nat | i < n + 1
      ensures NodeOk(parent', root', dist', i)
    {
      if i < n {
        assert NodeOk(parent, root, dist, i);
      }
    }
    assert Members(root', n) == {n};
    forall r: nat | r < n + 1
      ensures SizeOk(size', root', r)
    {
      if r < n && root'[r] == r {
        assert SizeOk(size, root, r);
        assert Members(root', r) == Members(root, r);
      }
    }
    assert Roots(root') == Roots(root) + {n};
  }

  /** One step of path halving keeps the forest valid and every root. */
  lemma HalveStep(parent: seq<nat>, size: seq<nat>, root: seq<nat>, dist: seq<nat>, setCount: nat, node: nat)
    requires ValidForest(parent, size, root, dist, setCount)
    requires node < |parent| && parent[node] != node
    ensures var gp := parent[parent[node]];
      && ValidForest(parent[node := gp], size, root, dist, setCount)
      && root[gp] == root[node] && dist[gp] < dist[node]
  {
    var pn := parent[node];
    assert NodeOk(parent, root, dist, node);
    assert NodeOk(parent, root, dist, pn);
    var gp := parent[pn];
    var p := parent[node := gp];
    forall i: nat | i < |parent|
      ensures NodeOk(p, root, dist, i)
    {
      assert NodeOk(parent, root, dist, i);
      assert NodeOk(parent, root, dist, root[i]);
    }
  }

  /** What the forest says about one node: its root is a root, and it is a root exactly when it is its own parent. */
  lemma NodeFacts(parent: seq<nat>, size: seq<nat>, root: seq<nat>, dist: seq<nat>, setCount: nat, i: nat)
    requires ValidForest(parent, size, root, dist, setCount) && i < |parent|
    ensures root[i] < |parent| && parent[root[i]] == root[i] && root[root[i]] == root[i]
    ensures parent[i] == i ==> root[i] == i
  {
    assert NodeOk(parent, root, dist, i);
    assert NodeOk(parent, root, dist, root[i]);
  }

  /** The distances after hanging root y under root x: y's members move dist[x] + 1 further away. */
  function Lengthen(root: seq<nat>, dist: seq<nat>, x: nat, y: nat): (d: seq<nat>)
    requires |dist| == |root| && x < |dist|
    ensures |d| == |dist|
    ensures forall i :: 0 <= i < |dist| ==> d[i] == if root[i] == y then dist[i] + dist[x] + 1 else dist[i]
  {
    seq(|dist|, i requires 0 <= i < |dist| => if root[i] == y then dist[i] + dist[x] + 1 else dist[i])
  }

  /** Hanging root y under root x keeps every node in order: y's members now reach x, one step further than before. */
  lemma LinkForest(parent: seq<nat>, root: seq<nat>, dist: seq<nat>, x: nat, y: nat)
    requires Forest(parent, root, dist)
    requires x < |parent| && y < |parent| && parent[x] == x && parent[y] == y && x != y
    ensures Forest(parent[y := x], Relink(root, x, y), Lengthen(root, dist, x, y))
  {
    var n := |parent|;
    assert NodeOk(parent, root, dist, x) && NodeOk(parent, root, dist, y);
    var parent', root', dist' := parent[y := x], Relink(root, x, y), Lengthen(root, dist, x, y);
    forall i: nat | i < n
      ensures NodeOk(parent', root', dist', i)
    {
      assert NodeOk(parent, root, dist, i);
      assert NodeOk(parent, root, dist, parent[i]);
    }
  }

  /** Linking root y under root x: x's size becomes the sum of both sets and there is one set fewer. */
  lemma LinkSizes(parent: seq<nat>, size: seq<nat>, root: seq<nat>, dist: seq<nat>, setCount: nat, x: nat, y: nat)
    requires ValidForest(parent, size, root, dist, setCount)
    requires x < |parent| && y < |parent| && parent[x] == x && parent[y] == y && x != y
    ensures setCount >= 1
    ensures var size', root' := size[x := size[x] + size[y]], Relink(root, x, y);
      && (forall r: nat :: r < |parent| ==> SizeOk(size', root', r))
      && setCount - 1 == |Roots(root')|
  {
    var n := |parent|;
    assert NodeOk(parent, root, dist, x) && NodeOk(parent, root, dist, y);
    forall i | 0 <= i < n
      ensures root[i] < n && root[root[i]] == root[i]
    {
      NodeFacts(parent, size, root, dist, setCount, i);
    }
    RelinkSets(root, x, y);
    var size', root' := size[x := size[x] + size[y]], Relink(root, x, y);
    assert x in Roots(root) && y in Roots(root);
    forall r: nat | r < n
      ensures SizeOk(size', root', r)
    {
      assert SizeOk(size, root, r);
      if r == x {
        assert SizeOk(size, root, y);
      }
    }
  }

  /** Linking root y under root x keeps the union-find state valid, with one set fewer. */
  lemma Link(parent: seq<nat>, size: seq<nat>, root: seq<nat>, dist: seq<nat>, setCount: nat, x: nat, y: nat)
    requires ValidForest(parent, size, root, dist, setCount)
    requires x < |parent| && y < |parent| && parent[x] == x && parent[y] == y && x != y
    ensures setCount >= 1
    ensures ValidForest(parent[y := x], size[x := size[x] + size[y]], Relink(root, x, y),
                        Lengthen(root, dist, x, y), setCount - 1)
  {
    LinkForest(parent, root, dist, x, y);
    LinkSizes(parent, size, root, dist, setCount, x, y);
  }

  class DisjointSet {
    var parent: seq<nat>
    var size: seq<nat>
    var nextId: nat
    var setCount: nat
    ghost var root: seq<nat>
    ghost var dist: seq<nat>

    ghost predicate Valid()
      reads this
    {
      && nextId == |parent| == |size| == |root| == |dist|
      && ValidForest(parent, size, root, dist, setCount)
    }

    constructor ()
      ensures Valid() && nextId == 0 && setCount == 0
    {
      parent, size, nextId, setCount := [], [], 0, 0;
      root, dist := [], [];
    }

    /** new_set: a fresh singleton with the next id, its own parent, of size 1. */
    method NewSet() returns (id: nat)
      requires Valid()
      modifies this
      ensures Valid()
      ensures id == old(nextId) && nextId == old(nextId) + 1
      ensures parent == old(parent) + [id] && size == old(size) + [1]
      ensures root == old(root) + [id]
      ensures setCount == old(setCount) + 1
      ensures Members(root, id) == {id}
    {
      AddSingleton(parent, size, root, dist, setCount);
      id := nextId;
      parent := parent + [id];
      size := size + [1];
      root := root + [id];
      dist := dist + [0];
      nextId := nextId + 1;
      setCount := setCount + 1;
    }

    /**
     * find with path halving: every node on the way is re-pointed to its
     * grandparent. The result is the node's root, which is its own
     * parent, and no node changes root.
     */
    method Find(x: nat) returns (r: nat)
      requires Valid() && x < nextId
      modifies this
      ensures root == old(root) && size == old(size) && nextId == old(nextId) && setCount == old(setCount)
      ensures Valid()
      ensures r == root[x] && parent[r] == r
    {
      var node: nat := x;
      while parent[node] != node
        invariant root == old(root) && size == old(size) && nextId == old(nextId) && setCount == old(setCount)
        invariant Valid() && node < nextId && root[node] == root[x]
        decreases dist[node]
      {
        HalveStep(parent, size, root, dist, setCount, node);
        var gp := parent[parent[node]];
        parent := parent[node := gp];
        node := gp;
      }
      NodeFacts(parent, size, root, dist, setCount, node);
      r := node;
    }

    /** find by id: the node table's checked access fails on an id never handed out. */
    method FindId(id: nat) returns (r: Option<nat>)
      requires Valid()
      modifies this
      ensures root == old(root) && size == old(size) && nextId == old(nextId) && setCount == old(setCount)
      ensures Valid()
      ensures r.None? <==> id >= nextId
      ensures r.Some? ==> r.value == root[id] && parent[r.value] == r.value
    {
      if id >= nextId {
        return None;
      }
      var found := Find(id);
      r := Some(found);
    }

    /** The linking step of merge: root y is hung under root x, whose size becomes the sum of both. */
    method LinkRoots(x: nat, y: nat)
      requires Valid() && x < nextId && y < nextId && parent[x] == x && parent[y] == y && x != y
      modifies this
      ensures Valid() && nextId == old(nextId)
      ensures setCount == old(setCount) - 1
      ensures root == Relink(old(root), x, y)
      ensures size[x] == old(size[x]) + old(size[y])
    {
      Link(parent, size, root, dist, setCount, x, y);
      dist := Lengthen(root, dist, x, y);
      root := Relink(root, x, y);
      parent := parent[y := x];
      size := size[x := size[x] + size[y]];
      setCount := setCount - 1;
    }

    /**
     * merge (union by size): with both roots found, nodes already in one set
     * give false and the sets stay as they were; otherwise the root of the
     * smaller set (y's on a tie) is hung under the other, whose size becomes
     * the sum of both, and there is one set fewer.
     */
    method Merge(x: nat, y: nat) returns (merged: bool)
      requires Valid() && x < nextId && y < nextId
      modifies this
      ensures Valid() && nextId == old(nextId)
      ensures merged <==> old(root[x]) != old(root[y])
      ensures !merged ==> root == old(root) && size == old(size) && setCount == old(setCount)
      ensures merged ==>
        var rx, ry := old(root[x]), old(root[y]);
        var big := if old(size[rx]) < old(size[ry]) then ry else rx;
        var small := if old(size[rx]) < old(size[ry]) then rx else ry;
        && setCount == old(setCount) - 1
        && root == Relink(old(root), big, small)
        && size[big] == old(size[rx]) + old(size[ry])
      ensures root[x] == root[y]
    {
      var rx := Find(x);
      var ry := Find(y);
      NodeFacts(parent, size, root, dist, setCount, x);
      NodeFacts(parent, size, root, dist, setCount, y);
      if rx == ry {
        return false;
      }
      if size[rx] < size[ry] {
        rx, ry := ry, rx;
      }
      LinkRoots(rx, ry);
      merged := true;
    }

    /** merge by id: either id never handed out makes the checked access fail; otherwise exactly as merge. */
    method MergeId(x: nat, y: nat) returns (r: Option<bool>)
      requires Valid()
      modifies this
      ensures Valid() && nextId == old(nextId)
      ensures r.None? <==> x >= nextId || y >= nextId
      ensures r.None? ==> root == old(root) && size == old(size) && setCount == old(setCount)
      ensures r.Some? ==> (r.value <==> old(root[x]) != old(root[y]))
      ensures r == Some(false) ==> root == old(root) && size == old(size) && setCount == old(setCount)
      ensures r == Some(true) ==>
        var rx, ry := old(root[x]), old(root[y]);
        var big := if old(size[rx]) < old(size[ry]) then ry else rx;
        var small := if old(size[rx]) < old(size[ry]) then rx else ry;
        && setCount == old(setCount) - 1
        && root == Relink(old(root), big, small)
        && size[big] == old(size[rx]) + old(size[ry])
      ensures r.Some? ==> root[x] == root[y]
    {
      if x >= nextId || y >= nextId {
        return None;
      }
      var merged := Merge(x, y);
      r := Some(merged);
    }
  }
}
