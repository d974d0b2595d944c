/**
 * Graphs as the traversals in aoc_lib/src/graph_traversal.hpp see them.
 * The library never stores a graph: callers pass a `process_neighbors`
 * callback that reports a node's successors. Here that callback is an
 * adjacency list over the nodes 0 .. |adj|-1, `adj[u]` listing the
 * successors of `u` in the order the callback reports them.
 */
module Graphs {
  type Adjacency = seq<seq<nat>>

  /** Every successor named by the adjacency lists is itself a node. */
  predicate Closed(adj: Adjacency)
  {
    forall u, v :: 0 <= u < |adj| && v in adj[u] ==> v < |adj|
  }

  /** Every member of `s` is a node of the graph. */
  predicate InGraph(adj: Adjacency, s: set<nat>)
  {
    forall v :: v in s ==> v < |adj|
  }

  /** All nodes of a graph with `n` nodes. */
  function Nodes(n: nat): (r: set<nat>)
    ensures forall v: nat :: v in r <==> v < n
  {
    if n == 0 then {} else Nodes(n - 1) + {n - 1}
  }

  /** The members of a list of nodes. */
  function Elems(ns: seq<nat>): set<nat>
  {
    set n | n in ns
  }

  /** The reverse of a sequence, as `std::ranges::reverse` leaves it. */
  function Reverse<T>(s: seq<T>): (r: seq<T>)
    ensures |r| == |s| && forall i :: 0 <= i < |s| ==> r[i] == s[|s| - 1 - i]
  {
    if s == [] then [] else [s[|s| - 1]] + Reverse(s[..|s| - 1])
  }

  /** `p` is a path along the edges of the graph. */
  predicate Walk(adj: Adjacency, p: seq<nat>)
  {
    |p| > 0 && (forall i :: 0 <= i < |p| ==> p[i] < |adj|)
    && forall i :: 0 <= i < |p| - 1 ==> p[i + 1] in adj[p[i]]
  }

  /** Some cycle of the graph passes through a node reachable from `source`. */
  ghost predicate CycleFrom(adj: Adjacency, source: nat)
  {
    exists c :: Walk(adj, c) && |c| >= 2 && c[0] == c[|c| - 1] && c[0] in Reachable(adj, {source})
  }

  /** The successors of the members of `s`. */
  function Succ(adj: Adjacency, s: set<nat>): set<nat>
  {
    set u, v | u in s && u < |adj| && v in adj[u] :: v
  }

  /** The nodes reachable from `s` along at most `k` edges. */
  function Within(adj: Adjacency, s: set<nat>, k: nat): set<nat>
    decreases k
  {
    if k == 0 then s else Within(adj, s, k - 1) + Succ(adj, Within(adj, s, k - 1))
  }

  /** The state of a breadth-first search after a level: that level and every node reached so far. */
  datatype Level = Level(frontier: set<nat>, reached: set<nat>)

  /**
   * Level `k` of a breadth-first search from `s`: level 0 is `s` itself, and
   * each next level is what the current one reaches that was not reached
   * before.
   */
  function Levels(adj: Adjacency, s: set<nat>, k: nat): Level
    decreases k
  {
    if k == 0 then Level(s, s)
    else
      var l := Levels(adj, s, k - 1);
      var next := Succ(adj, l.frontier) - l.reached;
      Level(next, l.reached + next)
  }

  /** The nodes whose distance from `s` is exactly `k`; see `LevelsWithin`. */
  function Layer(adj: Adjacency, s: set<nat>, k: nat): set<nat>
  {
    Levels(adj, s, k).frontier
  }

  /** Every node reachable from `s` at all; see `WithinReachable`. */
  function Reachable(adj: Adjacency, s: set<nat>): set<nat>
  {
    Within(adj, s, |adj|)
  }

  lemma SuccUnion(adj: Adjacency, a: set<nat>, b: set<nat>)
    ensures Succ(adj, a + b) == Succ(adj, a) + Succ(adj, b)
  {
  }

  lemma SuccInsert(adj: Adjacency, a: set<nat>, u: nat)
    requires u < |adj|
    ensures Succ(adj, a + {u}) == Succ(adj, a) + set v | v in adj[u]
  {
    SuccUnion(adj, a, {u});
  }

  lemma SuccMono(adj: Adjacency, a: set<nat>, b: set<nat>)
    requires a <= b
    ensures Succ(adj, a) <= Succ(adj, b)
  {
  }

  lemma {:induction false} SuccInGraph(adj: Adjacency, s: set<nat>)
    requires Closed(adj)
    ensures InGraph(adj, Succ(adj, s))
  {
  }

  lemma {:induction false} WithinInGraph(adj: Adjacency, s: set<nat>, k: nat)
    requires Closed(adj) && InGraph(adj, s)
    ensures InGraph(adj, Within(adj, s, k))
  {
    if k > 0 {
      WithinInGraph(adj, s, k - 1);
      SuccInGraph(adj, Within(adj, s, k - 1));
    }
  }

  /** Allowing more edges never loses a node. */
  lemma {:induction false} WithinMono(adj: Adjacency, s: set<nat>, j: nat, k: nat)
    requires j <= k
    ensures Within(adj, s, j) <= Within(adj, s, k)
    decreases k
  {
    if j < k {
      WithinMono(adj, s, j, k - 1);
    }
  }

  /** Once a step adds nothing, no later step adds anything. */
  lemma {:induction false} WithinStable(adj: Adjacency, s: set<nat>, k: nat, j: nat)
    requires Within(adj, s, k + 1) == Within(adj, s, k)
    ensures Within(adj, s, j) <= Within(adj, s, k)
    decreases j
  {
    if j <= k {
      WithinMono(adj, s, j, k);
    } else if j > k + 1 {
      WithinStable(adj, s, k, j - 1);
      SuccMono(adj, Within(adj, s, j - 1), Within(adj, s, k));
    }
  }

  /**
   * Level `k` holds the nodes at distance exactly `k`, and everything
   * reached by then lies within `k` edges.
   */
  lemma {:induction false} LevelsWithin(adj: Adjacency, s: set<nat>, k: nat)
    ensures Levels(adj, s, k).reached == Within(adj, s, k)
    ensures Layer(adj, s, k) == if k == 0 then s else Within(adj, s, k) - Within(adj, s, k - 1)
  {
    if k > 0 {
      LevelsWithin(adj, s, k - 1);
      var prev, f := Within(adj, s, k - 1), Layer(adj, s, k - 1);
      var sp := Succ(adj, prev);
      if k > 1 {
        var w := Within(adj, s, k - 2);
        assert prev == w + Succ(adj, w);
        WithinMono(adj, s, k - 2, k - 1);
        PartsOfUnion(w, prev, f);
        SuccUnion(adj, w, f);
        AbsorbedPart(Succ(adj, w), Succ(adj, f), prev);
      }
      LevelStep(adj, s, k, prev, f, sp);
    }
  }

  /** One level further: the new frontier is what the next step adds to `prev`. */
  lemma LevelStep(adj: Adjacency, s: set<nat>, k: nat, prev: set<nat>, f: set<nat>, sp: set<nat>)
    requires k > 0 && prev == Within(adj, s, k - 1) && f == Layer(adj, s, k - 1) && sp == Succ(adj, prev)
    requires Levels(adj, s, k - 1).reached == prev
    requires sp - prev == Succ(adj, f) - prev
    ensures Levels(adj, s, k).reached == Within(adj, s, k)
    ensures Layer(adj, s, k) == Within(adj, s, k) - prev
  {
    assert Levels(adj, s, k) == Level(Succ(adj, f) - prev, prev + (Succ(adj, f) - prev));
    assert Within(adj, s, k) == prev + sp;
    GrowthSplit(prev, sp);
  }

  /** A set containing `w` is `w` and the rest of it. */
  lemma PartsOfUnion(w: set<nat>, p: set<nat>, f: set<nat>)
    requires w <= p && f == p - w
    ensures p == w + f
  {
  }

  /** What a part already inside `p` adds to a union is nothing new. */
  lemma AbsorbedPart(a: set<nat>, b: set<nat>, p: set<nat>)
    requires a <= p
    ensures (a + b) - p == b - p
  {
  }

  /** A set grown by `x` is the old set and the new part of `x`, and the new part is the growth. */
  lemma GrowthSplit(p: set<nat>, x: set<nat>)
    ensures (p + x) - p == x - p && p + (x - p) == p + x
  {
  }

  /** Distinct levels share no node. */
  lemma LayersDisjoint(adj: Adjacency, s: set<nat>, j: nat, k: nat)
    requires j < k
    ensures Layer(adj, s, j) !! Layer(adj, s, k)
  {
    LevelsWithin(adj, s, j);
    LevelsWithin(adj, s, k);
    WithinMono(adj, s, j, k - 1);
  }

  lemma {:induction false} NodesCard(n: nat)
    ensures |Nodes(n)| == n
  {
    if n > 0 {
      NodesCard(n - 1);
      var prev := Nodes(n - 1);
      assert n - 1 !in prev;
      assert Nodes(n) == prev + {n - 1};
      assert |prev + {n - 1}| == |prev| + 1;
    }
  }

  lemma {:induction false} SubsetCard(a: set<nat>, b: set<nat>)
    requires a <= b
    ensures |a| <= |b|
    ensures a < b ==> |a| < |b|
  {
    assert b == a + (b - a);
    assert a < b ==> |b - a| > 0;
  }

  /** A set of nodes has at most as many members as the graph has nodes. */
  lemma InGraphCard(adj: Adjacency, s: set<nat>)
    requires InGraph(adj, s)
    ensures |s| <= |adj|
  {
    NodesCard(|adj|);
    SubsetCard(s, Nodes(|adj|));
  }

  /** Step `j + 1` of the search reaches a node step `j` did not. */
  predicate Grows(adj: Adjacency, s: set<nat>, j: nat)
  {
    Within(adj, s, j + 1) != Within(adj, s, j)
  }

  /** Each step either adds a node or the search has stopped growing. */
  lemma {:induction false} WithinGrows(adj: Adjacency, s: set<nat>, k: nat)
    requires forall j: nat :: j < k ==> Grows(adj, s, j)
    ensures |Within(adj, s, k)| >= k + |s|
  {
    if k > 0 {
      WithinGrows(adj, s, k - 1);
      var before, after := Within(adj, s, k - 1), Within(adj, s, k);
      assert Grows(adj, s, k - 1);
      WithinMono(adj, s, k - 1, k);
      StrictGrowth(before, after, k - 1 + |s|);
    } else {
      assert Within(adj, s, 0) == s;
    }
  }

  /** A set strictly larger than one with at least `n` members has more than `n`. */
  lemma StrictGrowth(a: set<nat>, b: set<nat>, n: nat)
    requires a <= b && a != b && |a| >= n
    ensures |b| >= n + 1
  {
    SubsetCard(a, b);
  }

  lemma {:induction false} WithinEmpty(adj: Adjacency, k: nat)
    ensures Within(adj, {}, k) == {}
  {
    if k > 0 {
      WithinEmpty(adj, k - 1);
    }
  }

  /** A level after an empty one is empty too. */
  lemma NotStable(adj: Adjacency, s: set<nat>, j: nat, d: nat)
    requires j < d && Layer(adj, s, d) != {}
    ensures Grows(adj, s, j)
  {
    if Within(adj, s, j + 1) == Within(adj, s, j) {
      StableLayerEmpty(adj, s, j, d);
      assert false;
    }
  }

  /** Once the search stops growing, every later level is empty. */
  lemma StableLayerEmpty(adj: Adjacency, s: set<nat>, j: nat, d: nat)
    requires j < d && Within(adj, s, j + 1) == Within(adj, s, j)
    ensures Layer(adj, s, d) == {}
  {
    LevelsWithin(adj, s, d);
    WithinStable(adj, s, j, d);
    WithinMono(adj, s, j, d - 1);
    SubsetDiffEmpty(Within(adj, s, d), Within(adj, s, j), Within(adj, s, d - 1));
  }

  lemma SubsetDiffEmpty(a: set<nat>, b: set<nat>, c: set<nat>)
    requires a <= b <= c
    ensures a - c == {}
  {
  }

  /** A non-empty level lies less than `|adj|` edges out: a search has at most `|adj|` levels. */
  lemma LayerBound(adj: Adjacency, s: set<nat>, d: nat)
    requires Closed(adj) && InGraph(adj, s) && Layer(adj, s, d) != {}
    ensures d < |adj|
  {
    forall j: nat | j < d
      ensures Grows(adj, s, j)
    {
      NotStable(adj, s, j, d);
    }
    LevelsWithin(adj, s, d);
    WithinGrows(adj, s, d);
    WithinInGraph(adj, s, d);
    InGraphCard(adj, Within(adj, s, d));
    WithinEmpty(adj, d);
  }

  /** `Reachable` holds every node reachable along any number of edges. */
  lemma WithinReachable(adj: Adjacency, s: set<nat>, k: nat)
    requires Closed(adj) && InGraph(adj, s)
    ensures Within(adj, s, k) <= Reachable(adj, s)
  {
    var n := |adj|;
    if k <= n {
      WithinMono(adj, s, k, n);
    } else if j: nat :| j <= n && Within(adj, s, j + 1) == Within(adj, s, j) {
      WithinStable(adj, s, j, k);
      WithinMono(adj, s, j, n);
    } else {
      WithinGrows(adj, s, n + 1);
      WithinInGraph(adj, s, n + 1);
      NodesCard(n);
      SubsetCard(Within(adj, s, n + 1), Nodes(n));
      assert false;
    }
  }

  /** The last node of a walk from `s` lies within its length of `s`. */
  lemma {:induction false} WalkWithin(adj: Adjacency, s: set<nat>, p: seq<nat>)
    requires Walk(adj, p) && p[0] in s
    ensures p[|p| - 1] in Within(adj, s, |p| - 1)
  {
    if |p| > 1 {
      var q := p[..|p| - 1];
      assert Walk(adj, q);
      WalkWithin(adj, s, q);
      assert p[|p| - 1] in adj[q[|q| - 1]];
    }
  }

  /** Successors of reachable nodes are reachable. */
  lemma ReachableClosed(adj: Adjacency, s: set<nat>, u: nat, v: nat)
    requires Closed(adj) && InGraph(adj, s)
    requires u in Reachable(adj, s) && u < |adj| && v in adj[u]
    ensures v in Reachable(adj, s)
  {
    assert v in Within(adj, s, |adj| + 1);
    WithinReachable(adj, s, |adj| + 1);
  }

  /** A set holding `s` and closed under successors holds everything reachable from `s`. */
  lemma {:induction false} ClosedHoldsWithin(adj: Adjacency, s: set<nat>, p: set<nat>, k: nat)
    requires s <= p && Succ(adj, p) <= p
    ensures Within(adj, s, k) <= p
  {
    if k > 0 {
      ClosedHoldsWithin(adj, s, p, k - 1);
      SuccMono(adj, Within(adj, s, k - 1), p);
    }
  }
}
