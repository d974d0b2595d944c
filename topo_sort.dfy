/**
 * `topo_sort` from aoc_lib/src/graph_traversal.hpp: a depth-first search
 * from one source that marks a node temporarily while its successors are
 * searched and permanently once they are done, appends each node when it is
 * done, and reverses that list at the end. Meeting a temporarily marked node
 * again raises `std::invalid_argument`, modelled as the `Cyclic` result.
 */
module TopoSort {
  import opened Graphs

  /** The search state: the temporary marks, the permanent marks and the nodes in finishing order. */
  datatype Marks = Marks(temp: set<nat>, perm: set<nat>, ordered: seq<nat>)

  /** What `topo_sort` returns or throws. */
  datatype Sorted = Sorted(order: seq<nat>) | Cyclic

  predicate Distinct(s: seq<nat>)
  {
    forall i, j :: 0 <= i < j < |s| ==> s[i] != s[j]
  }

  /** Each node's successors are finished before it. */
  predicate PostOrder(adj: Adjacency, o: seq<nat>)
  {
    forall i, j :: 0 <= i < |o| && 0 <= j < |o| && o[i] < |adj| && o[j] in adj[o[i]] ==> j < i
  }

  /** The successors of every finished node are finished. */
  predicate Finished(adj: Adjacency, perm: set<nat>)
  {
    forall u :: u in perm ==> u < |adj| && forall v :: v in adj[u] ==> v in perm
  }

  /** What holds of the marks between steps of the search from `source`. */
  ghost predicate Good(adj: Adjacency, source: nat, m: Marks)
  {
    Elems(m.ordered) == m.perm && Distinct(m.ordered) && m.temp !! m.perm
    && Finished(adj, m.perm) && PostOrder(adj, m.ordered)
    && m.temp + m.perm <= Reachable(adj, {source})
  }

  /**
   * A topological order of what `source` reaches: it starts at `source`,
   * lists each reachable node once, and puts every edge's tail before its
   * head.
   */
  ghost predicate TopoOrder(adj: Adjacency, source: nat, r: seq<nat>)
  {
    |r| > 0 && r[0] == source && Distinct(r) && Elems(r) == Reachable(adj, {source})
    && forall i, j :: 0 <= i < |r| && 0 <= j < |r| && r[i] < |adj| && r[j] in adj[r[i]] ==> i < j
  }

  /** Finishing `n` once all its successors are finished keeps the marks good. */
  lemma Finish(adj: Adjacency, source: nat, m: Marks, n: nat, temp: set<nat>)
    requires Good(adj, source, m) && n < |adj| && n in m.temp && temp == m.temp - {n}
    requires forall v :: v in adj[n] ==> v in m.perm
    ensures Good(adj, source, Marks(temp, m.perm + {n}, m.ordered + [n]))
  {
    var o := m.ordered + [n];
    assert Elems(o) == Elems(m.ordered) + {n};
    assert n !in m.perm;
    forall i, j | 0 <= i < |o| && 0 <= j < |o| && o[i] < |adj| && o[j] in adj[o[i]]
      ensures j < i
    {
      if i < |m.ordered| {
        assert o[i] in m.perm;
      }
    }
    forall i, j | 0 <= i < j < |o|
      ensures o[i] != o[j]
    {
      if j == |m.ordered| {
        assert o[i] in Elems(m.ordered);
      }
    }
  }

  /** Meeting a node already on the search path closes a cycle. */
  lemma Cycle(adj: Adjacency, source: nat, path: seq<nat>, n: nat)
    requires Closed(adj) && source < |adj|
    requires Walk(adj, path + [n]) && (path + [n])[0] == source && n in Elems(path)
    ensures CycleFrom(adj, source)
  {
    var p := path + [n];
    var i :| 0 <= i < |path| && path[i] == n;
    var c := p[i..];
    assert Walk(adj, c) by {
      forall k | 0 <= k < |c| - 1
        ensures c[k + 1] in adj[c[k]]
      {
        assert c[k] == p[i + k] && c[k + 1] == p[i + k + 1];
      }
    }
    var pre := p[..i + 1];
    assert Walk(adj, pre);
    WalkWithin(adj, {source}, pre);
    WithinReachable(adj, {source}, i);
    assert c[0] == n && c[|c| - 1] == n;
  }

  /**
   * The recursive `visit` of `topo_sort`, entered on `n` along the search
   * path `path`. Either the search finishes `n` (and everything it reaches
   * that was not finished before), or it meets a cycle.
   */
  method Visit(adj: Adjacency, ghost source: nat, n: nat, m: Marks, ghost path: seq<nat>)
      returns (ok: bool, m': Marks)
    requires Closed(adj) && source < |adj|
    requires n < |adj| && n in Reachable(adj, {source})
    requires Good(adj, source, m)
    requires Walk(adj, path + [n]) && (path + [n])[0] == source && m.temp == Elems(path)
    ensures ok ==> Good(adj, source, m') && m'.temp == m.temp && m.perm <= m'.perm && n in m'.perm
    ensures ok ==> m.ordered <= m'.ordered
    ensures ok && n !in m.perm ==> |m'.ordered| > 0 && m'.ordered[|m'.ordered| - 1] == n
    ensures !ok ==> CycleFrom(adj, source)
    decreases Nodes(|adj|) - m.temp
  {
    if n in m.perm {
      return true, m;
    }
    if n in m.temp {
      Cycle(adj, source, path, n);
      return false, m;
    }
    var st := m.(temp := m.temp + {n});
    var j := 0;
    while j < |adj[n]|
      invariant j <= |adj[n]|
      invariant Good(adj, source, st) && st.temp == m.temp + {n} && n !in st.perm
      invariant m.perm <= st.perm && m.ordered <= st.ordered
      invariant forall k :: 0 <= k < j ==> adj[n][k] in st.perm
    {
      var w := adj[n][j];
      ReachableClosed(adj, {source}, n, w);
      assert Elems(path + [n]) == st.temp;
      assert (path + [n] + [w])[..|path| + 1] == path + [n];
      var ok', st' := Visit(adj, source, w, st, path + [n]);
      if !ok' {
        return false, st';
      }
      st := st';
      j := j + 1;
    }
    Finish(adj, source, st, n, m.temp);
    m' := Marks(m.temp, st.perm + {n}, st.ordered + [n]);
    ok := true;
  }

  /**
   * `topo_sort(source, ...)`: the reachable nodes in topological order, or
   * `Cyclic` exactly when a cycle is reachable from `source`.
   */
  method Sort(adj: Adjacency, source: nat) returns (r: Sorted)
    requires Closed(adj) && source < |adj|
    ensures r.Cyclic? <==> CycleFrom(adj, source)
    ensures r.Sorted? ==> TopoOrder(adj, source, r.order)
  {
    assert source in Within(adj, {source}, 0);
    WithinReachable(adj, {source}, 0);
    assert Walk(adj, [] + [source]);
    var ok, m := Visit(adj, source, source, Marks({}, {}, []), []);
    if !ok {
      return Cyclic;
    }
    var order := Reverse(m.ordered);
    SearchSorted(adj, source, m, order);
    OrderAcyclic(adj, source, order);
    return Sorted(order);
  }

  /** A finished search reversed is a topological order. */
  lemma SearchSorted(adj: Adjacency, source: nat, m: Marks, order: seq<nat>)
    requires Closed(adj) && source < |adj|
    requires Good(adj, source, m) && m.temp == {} && source in m.perm
    requires |m.ordered| > 0 && m.ordered[|m.ordered| - 1] == source
    requires order == Reverse(m.ordered)
    ensures TopoOrder(adj, source, order)
  {
    assert Succ(adj, m.perm) <= m.perm;
    ClosedHoldsWithin(adj, {source}, m.perm, |adj|);
    ReverseElems(m.ordered);
    ReverseOrder(adj, m.ordered);
  }

  lemma ReverseElems(s: seq<nat>)
    requires Distinct(s)
    ensures Elems(Reverse(s)) == Elems(s) && Distinct(Reverse(s))
  {
    var r := Reverse(s);
    forall x | x in Elems(s)
      ensures x in Elems(r)
    {
      var i :| 0 <= i < |s| && s[i] == x;
      assert r[|s| - 1 - i] == x;
    }
    forall i, j | 0 <= i < j < |r|
      ensures r[i] != r[j]
    {
      assert r[i] == s[|s| - 1 - i] && r[j] == s[|s| - 1 - j];
    }
  }

  /** Reversing a finishing order puts every edge's tail before its head. */
  lemma ReverseOrder(adj: Adjacency, o: seq<nat>)
    requires PostOrder(adj, o)
    ensures forall i, j ::
      (0 <= i < |Reverse(o)| && 0 <= j < |Reverse(o)| && Reverse(o)[i] < |adj| && Reverse(o)[j] in adj[Reverse(o)[i]]) ==> i < j
  {
    var r := Reverse(o);
    forall i, j | 0 <= i < |r| && 0 <= j < |r| && r[i] < |adj| && r[j] in adj[r[i]]
      ensures i < j
    {
      assert r[i] == o[|o| - 1 - i] && r[j] == o[|o| - 1 - j];
    }
  }

  /** The position of a member of a sequence. */
  function IndexOf(s: seq<nat>, x: nat): (i: nat)
    requires x in s
    ensures i < |s| && s[i] == x
  {
    if s[0] == x then 0 else 1 + IndexOf(s[1..], x)
  }

  /** Along a walk inside a topological order, positions strictly increase. */
  lemma {:induction false} WalkAscends(adj: Adjacency, source: nat, r: seq<nat>, c: seq<nat>, k: nat)
    requires Closed(adj) && source < |adj| && TopoOrder(adj, source, r)
    requires Walk(adj, c) && c[0] in Reachable(adj, {source}) && k < |c|
    ensures c[k] in Reachable(adj, {source})
    ensures IndexOf(r, c[k]) >= IndexOf(r, c[0]) + k
  {
    if k > 0 {
      WalkAscends(adj, source, r, c, k - 1);
      ReachableClosed(adj, {source}, c[k - 1], c[k]);
      assert c[k - 1] in Elems(r) && c[k] in Elems(r);
      var i, j := IndexOf(r, c[k - 1]), IndexOf(r, c[k]);
      assert r[j] in adj[r[i]];
    }
  }

  /** A graph whose reachable part has a topological order has no reachable cycle. */
  lemma OrderAcyclic(adj: Adjacency, source: nat, r: seq<nat>)
    requires Closed(adj) && source < |adj| && TopoOrder(adj, source, r)
    ensures !CycleFrom(adj, source)
  {
    if c :| Walk(adj, c) && |c| >= 2 && c[0] == c[|c| - 1] && c[0] in Reachable(adj, {source}) {
      WalkAscends(adj, source, r, c, |c| - 1);
      assert false;
    }
  }
}
