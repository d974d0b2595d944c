/**
 * `dijkstra` from aoc_lib/src/graph_traversal.hpp: shortest distance from
 * a source to the nearest target node, with non-negative edge weights.
 * The `distances` map keeps, for each node seen, the best distance found
 * so far and the node it was reached from; the frontier priority queue
 * holds (distance, node) pairs, smallest first, and entries that are no
 * longer current are skipped when popped.
 */
module ShortestPaths {
  import opened Graphs

  /** The value `distances` maps a node to: the best distance so far and the node it came from. */
  datatype Tentative = Tentative(dist: nat, parent: nat)

  type Distances = map<nat, Tentative>

  /** A frontier entry `(distance, node)`. */
  type Item = (nat, nat)

  /** The total weight of the edges along `p`. */
  function Weight(w: (nat, nat) -> nat, p: seq<nat>): nat
    decreases |p|
  {
    if |p| <= 1 then 0 else Weight(w, p[..|p| - 1]) + w(p[|p| - 2], p[|p| - 1])
  }

  /** `std::greater<pq_key>`'s order reversed: `a` is popped no later than `b`. */
  predicate NoLater(a: Item, b: Item)
  {
    a.0 < b.0 || (a.0 == b.0 && a.1 <= b.1)
  }

  /** The entry a min-priority queue holding `f` pops next. */
  ghost function Least(f: set<Item>): (m: Item)
    requires f != {}
    ensures m in f && forall b :: b in f ==> NoLater(m, b)
  {
    var a :| a in f;
    if f == {a} then a
    else
      var m := Least(f - {a});
      assert forall b :: b in f ==> b == a || b in f - {a};
      if NoLater(a, m) then a else m
  }

  /** `frontier.top(); frontier.pop()`. */
  method PopLeast(f: set<Item>) returns (d: nat, u: nat, f': set<Item>)
    requires f != {}
    ensures (d, u) in f && f' == f - {(d, u)}
    ensures forall b :: b in f ==> NoLater((d, u), b)
  {
    ghost var m := Least(f);
    var p :| p in f && forall b :: b in f ==> NoLater(p, b);
    d, u := p.0, p.1;
    f' := f - {p};
  }

  /**
   * The callback `process_neighbors` runs for `current` = `u`, popped at
   * distance `du`, on its neighbour `v`: a first or strictly shorter route
   * to `v` through `u` is recorded and pushed.
   */
  function RelaxEdge(dm: Distances, f: set<Item>, u: nat, du: nat, v: nat, wt: nat): (Distances, set<Item>)
  {
    var nd := du + wt;
    if v !in dm || nd < dm[v].dist then (dm[v := Tentative(nd, u)], f + {(nd, v)}) else (dm, f)
  }

  /** The callback run on the neighbours `vs` of `u`, in order. */
  function RelaxAll(w: (nat, nat) -> nat, dm: Distances, f: set<Item>, u: nat, du: nat, vs: seq<nat>): (Distances, set<Item>)
    decreases |vs|
  {
    if vs == [] then (dm, f)
    else
      var r := RelaxAll(w, dm, f, u, du, vs[..|vs| - 1]);
      RelaxEdge(r.0, r.1, u, du, vs[|vs| - 1], w(u, vs[|vs| - 1]))
  }

  /** `process_neighbors(current, ...)` with the relaxing callback. */
  method Relax(adj: Adjacency, w: (nat, nat) -> nat, u: nat, du: nat, dm: Distances, f: set<Item>)
    returns (dm': Distances, f': set<Item>)
    requires u < |adj|
    ensures (dm', f') == RelaxAll(w, dm, f, u, du, adj[u])
  {
    dm', f' := dm, f;
    for j := 0 to |adj[u]|
      invariant (dm', f') == RelaxAll(w, dm, f, u, du, adj[u][..j])
    {
      assert adj[u][..j + 1][..j] == adj[u][..j];
      var v := adj[u][j];
      var nd := du + w(u, v);
      if v !in dm' || nd < dm'[v].dist {
        dm' := dm'[v := Tentative(nd, u)];
        f' := f' + {(nd, v)};
      }
    }
    assert adj[u][..|adj[u]|] == adj[u];
  }

  /** Relaxing adds the neighbours to the map and only ever lowers a distance. */
  lemma {:induction false} RelaxKeys(w: (nat, nat) -> nat, dm: Distances, f: set<Item>, u: nat, du: nat, vs: seq<nat>)
    ensures var r := RelaxAll(w, dm, f, u, du, vs);
      r.0.Keys == dm.Keys + Elems(vs) && f <= r.1
      && (forall k :: k in dm ==> r.0[k].dist <= dm[k].dist)
    decreases |vs|
  {
    if vs != [] {
      var pre := vs[..|vs| - 1];
      RelaxKeys(w, dm, f, u, du, pre);
      assert vs == pre + [vs[|vs| - 1]];
      assert Elems(vs) == Elems(pre) + {vs[|vs| - 1]};
    }
  }

  /** Each neighbour ends within `du` plus the weight of its edge from `u`. */
  lemma {:induction false} RelaxBound(w: (nat, nat) -> nat, dm: Distances, f: set<Item>, u: nat, du: nat, vs: seq<nat>)
    ensures var r := RelaxAll(w, dm, f, u, du, vs);
      forall v :: v in vs ==> v in r.0 && r.0[v].dist <= du + w(u, v)
    decreases |vs|
  {
    if vs != [] {
      var pre := vs[..|vs| - 1];
      var v := vs[|vs| - 1];
      RelaxBound(w, dm, f, u, du, pre);
      RelaxKeys(w, dm, f, u, du, pre);
      var r := RelaxAll(w, dm, f, u, du, pre);
      var r' := RelaxEdge(r.0, r.1, u, du, v, w(u, v));
      assert r'.0.Keys == r.0.Keys + {v};
      assert forall k :: k in r.0 ==> r'.0[k].dist <= r.0[k].dist;
      assert vs == pre + [v];
    }
  }

  /**
   * Every entry relaxing changes now records the route through `u`, and
   * is pushed at its new distance.
   */
  lemma {:induction false} RelaxChanged(w: (nat, nat) -> nat, dm: Distances, f: set<Item>, u: nat, du: nat, vs: seq<nat>)
    ensures var r := RelaxAll(w, dm, f, u, du, vs);
      forall k :: k in r.0 && (k !in dm || r.0[k] != dm[k]) ==>
        r.0[k] == Tentative(du + w(u, k), u) && (k in dm ==> r.0[k].dist < dm[k].dist)
        && (r.0[k].dist, k) in r.1 && k in vs
    decreases |vs|
  {
    if vs != [] {
      var pre := vs[..|vs| - 1];
      var v := vs[|vs| - 1];
      RelaxChanged(w, dm, f, u, du, pre);
      RelaxKeys(w, dm, f, u, du, pre);
      var r := RelaxAll(w, dm, f, u, du, pre);
      var r' := RelaxEdge(r.0, r.1, u, du, v, w(u, v));
      assert r.1 <= r'.1;
      forall k | k in r'.0 && (k !in dm || r'.0[k] != dm[k])
        ensures r'.0[k] == Tentative(du + w(u, k), u) && (k in dm ==> r'.0[k].dist < dm[k].dist)
        ensures (r'.0[k].dist, k) in r'.1 && k in vs
      {
        if k != v {
          assert k in r.0 && r'.0[k] == r.0[k];
        }
      }
    }
  }

  /** Every entry relaxing pushes is no earlier than `du` and no earlier than its node's entry. */
  lemma {:induction false} RelaxPushed(w: (nat, nat) -> nat, dm: Distances, f: set<Item>, u: nat, du: nat, vs: seq<nat>)
    ensures var r := RelaxAll(w, dm, f, u, du, vs);
      forall p :: p in r.1 && p !in f ==>
        p.1 in r.0 && r.0[p.1].dist <= p.0 && du <= p.0 && (p.1 in dm ==> p.0 < dm[p.1].dist)
    decreases |vs|
  {
    if vs != [] {
      var pre := vs[..|vs| - 1];
      var v := vs[|vs| - 1];
      RelaxPushed(w, dm, f, u, du, pre);
      RelaxKeys(w, dm, f, u, du, pre);
      var r := RelaxAll(w, dm, f, u, du, pre);
      var r' := RelaxEdge(r.0, r.1, u, du, v, w(u, v));
      assert r'.0.Keys >= r.0.Keys;
      assert forall k :: k in r.0 ==> r'.0[k].dist <= r.0[k].dist;
    }
  }

  /** `p` is a walk from `s` to `t`. */
  predicate Route(adj: Adjacency, p: seq<nat>, s: nat, t: nat)
  {
    Walk(adj, p) && p[0] == s && p[|p| - 1] == t
  }

  /** No walk from `src` to `u` weighs less than `d`. */
  ghost predicate Shortest(adj: Adjacency, w: (nat, nat) -> nat, src: nat, u: nat, d: nat)
  {
    forall p :: Route(adj, p, src, u) ==> d <= Weight(w, p)
  }

  /** The recorded parent of `k` is settled, has an edge to `k`, and accounts for `k`'s distance. */
  predicate ParentOk(adj: Adjacency, w: (nat, nat) -> nat, dm: Distances, settled: set<nat>, order: map<nat, nat>, k: nat)
    requires k in dm
  {
    var p := dm[k].parent;
    p in settled && p in dm && p < |adj| && k in adj[p] && dm[k].dist == dm[p].dist + w(p, k)
    && (k in settled ==> p in order && k in order && order[p] < order[k])
  }

  /** The source is at distance 0, is its own parent, and is popped first. */
  predicate Rooted(adj: Adjacency, src: nat, dm: Distances, settled: set<nat>)
  {
    src in dm && dm[src] == Tentative(0, src)
    && (settled == {} ==> dm.Keys == {src})
    && (settled != {} ==> src in settled)
    && (forall k :: k in dm ==> k < |adj|)
    && settled <= dm.Keys
  }

  /**
   * Every entry but the source's has a settled parent, popped before the
   * entry itself when that is settled too; `order` numbers the settled
   * nodes in the order they were popped.
   */
  predicate Parents(adj: Adjacency, w: (nat, nat) -> nat, src: nat, dm: Distances, settled: set<nat>, order: map<nat, nat>)
  {
    (forall k :: k in dm && k != src ==> ParentOk(adj, w, dm, settled, order, k))
    && order.Keys == settled && (forall k :: k in settled ==> order[k] < |settled|)
  }

  /** Settled distances are final and their out-edges have been relaxed. */
  ghost predicate Final(adj: Adjacency, w: (nat, nat) -> nat, src: nat, dm: Distances, settled: set<nat>)
    requires settled <= dm.Keys
  {
    (forall u :: u in settled ==> Shortest(adj, w, src, u, dm[u].dist))
    && (forall u, v :: u in settled && u < |adj| && v in adj[u] ==> v in dm && dm[v].dist <= dm[u].dist + w(u, v))
  }

  /**
   * The frontier holds every unsettled entry at its distance, nothing
   * below an entry's distance, nothing below a settled distance, and no
   * settled node at its own distance.
   */
  predicate Frontier(src: nat, dm: Distances, f: set<Item>, settled: set<nat>)
    requires settled <= dm.Keys
  {
    (settled == {} ==> f == {(0, src)})
    && (forall k :: k in dm && k !in settled ==> (dm[k].dist, k) in f)
    && (forall q :: q in f ==> q.1 in dm && dm[q.1].dist <= q.0)
    && (forall u :: u in settled ==> (dm[u].dist, u) !in f)
    && (forall u, q :: u in settled && q in f ==> dm[u].dist <= q.0)
  }

  /**
   * What holds between pops. `settled` (ghost) holds the nodes popped at
   * their current distance so far.
   */
  ghost predicate Inv(adj: Adjacency, w: (nat, nat) -> nat, src: nat, dm: Distances, f: set<Item>,
                      settled: set<nat>, order: map<nat, nat>)
  {
    Rooted(adj, src, dm, settled) && Parents(adj, w, src, dm, settled, order)
    && Final(adj, w, src, dm, settled) && Frontier(src, dm, f, settled)
  }

  /** The state before the first pop. */
  lemma Start(adj: Adjacency, w: (nat, nat) -> nat, src: nat)
    requires src < |adj|
    ensures Inv(adj, w, src, map[src := Tentative(0, src)], {(0, src)}, {}, map[])
  {
  }

  /** The weight of a walk only grows as it goes on. */
  lemma {:induction false} WeightPrefix(w: (nat, nat) -> nat, p: seq<nat>, j: nat)
    requires 1 <= j <= |p|
    ensures Weight(w, p[..j]) <= Weight(w, p)
    decreases |p|
  {
    if j < |p| {
      WeightPrefix(w, p[..|p| - 1], j);
      assert p[..|p| - 1][..j] == p[..j];
    } else {
      assert p[..j] == p;
    }
  }

  /** A walk from inside `inside` to outside it has an edge leaving it. */
  lemma {:induction false} Exit(adj: Adjacency, p: seq<nat>, inside: set<nat>) returns (i: nat)
    requires Walk(adj, p) && p[0] in inside && p[|p| - 1] !in inside
    ensures i + 1 < |p| && p[i] in inside && p[i + 1] !in inside
    decreases |p|
  {
    if p[|p| - 2] in inside {
      i := |p| - 2;
    } else {
      i := Exit(adj, p[..|p| - 1], inside);
    }
  }

  /**
   * A walk from the source to an unsettled node passes through an
   * unsettled entry whose distance is no more than the walk's weight.
   */
  lemma Escape(adj: Adjacency, w: (nat, nat) -> nat, src: nat, dm: Distances, f: set<Item>,
               settled: set<nat>, p: seq<nat>) returns (y: nat)
    requires Rooted(adj, src, dm, settled) && Final(adj, w, src, dm, settled) && Frontier(src, dm, f, settled)
    requires settled != {} && Walk(adj, p) && p[0] == src && p[|p| - 1] !in settled
    ensures y in dm && y !in settled && dm[y].dist <= Weight(w, p) && (dm[y].dist, y) in f
  {
    var i := Exit(adj, p, settled);
    var x := p[i];
    y := p[i + 1];
    assert Route(adj, p[..i + 1], src, x);
    assert dm[x].dist <= Weight(w, p[..i + 1]);
    assert p[..i + 2][..i + 1] == p[..i + 1];
    assert Weight(w, p[..i + 2]) == Weight(w, p[..i + 1]) + w(x, y);
    WeightPrefix(w, p, i + 2);
  }

  /**
   * An entry popped at its current distance `d` is no further than any
   * walk from the source to a node not yet settled.
   */
  lemma PopBound(adj: Adjacency, w: (nat, nat) -> nat, src: nat, dm: Distances, f: set<Item>,
                 settled: set<nat>, order: map<nat, nat>, d: nat, u: nat)
    requires Inv(adj, w, src, dm, f, settled, order)
    requires (d, u) in f && (forall b :: b in f ==> NoLater((d, u), b)) && u in dm && d == dm[u].dist
    ensures forall p :: Walk(adj, p) && p[0] == src && p[|p| - 1] !in settled ==> d <= Weight(w, p)
  {
    forall p | Walk(adj, p) && p[0] == src && p[|p| - 1] !in settled
      ensures d <= Weight(w, p)
    {
      if settled != {} {
        var y := Escape(adj, w, src, dm, f, settled, p);
        assert NoLater((d, u), (dm[y].dist, y));
      }
    }
  }

  /** Once the frontier is empty, every node reachable from the source is settled. */
  lemma Exhausted(adj: Adjacency, w: (nat, nat) -> nat, src: nat, dm: Distances,
                  settled: set<nat>, order: map<nat, nat>)
    requires Inv(adj, w, src, dm, {}, settled, order)
    ensures forall p :: Walk(adj, p) && p[0] == src ==> p[|p| - 1] in settled
  {
    forall p | Walk(adj, p) && p[0] == src
      ensures p[|p| - 1] in settled
    {
      if p[|p| - 1] !in settled {
        var y := Escape(adj, w, src, dm, {}, settled, p);
        assert false;
      }
    }
  }

  /** Dropping an entry that is no longer current keeps the invariant. */
  lemma StaleStep(adj: Adjacency, w: (nat, nat) -> nat, src: nat, dm: Distances, f: set<Item>,
                  settled: set<nat>, order: map<nat, nat>, d: nat, u: nat)
    requires Inv(adj, w, src, dm, f, settled, order)
    requires (d, u) in f && u in dm && d != dm[u].dist
    ensures Inv(adj, w, src, dm, f - {(d, u)}, settled, order)
  {
  }

  /** `(d, u)` is the least frontier entry, and current for `u`. */
  predicate Popped(dm: Distances, f: set<Item>, d: nat, u: nat)
  {
    (d, u) in f && (forall b :: b in f ==> NoLater((d, u), b)) && u in dm && d == dm[u].dist
  }

  /** Relaxing only adds the neighbours `vs` to the map, only lowers distances, and only pushes. */
  predicate Grown(dm: Distances, f: set<Item>, vs: seq<nat>, dm': Distances, f': set<Item>)
  {
    dm'.Keys == dm.Keys + Elems(vs) && f <= f'
    && (forall k :: k in dm ==> dm'[k].dist <= dm[k].dist)
  }

  /** Every entry relaxing changed records the route through `u`, popped at `d`, and was pushed. */
  predicate Changed(w: (nat, nat) -> nat, dm: Distances, u: nat, d: nat, vs: seq<nat>, dm': Distances, f': set<Item>)
  {
    forall k :: k in dm' && (k !in dm || dm'[k] != dm[k]) ==>
      dm'[k] == Tentative(d + w(u, k), u) && (k in dm ==> dm'[k].dist < dm[k].dist)
      && (dm'[k].dist, k) in f' && k in vs
  }

  /** Every neighbour ends within `d` plus the weight of its edge from `u`. */
  predicate Bounded(w: (nat, nat) -> nat, u: nat, d: nat, vs: seq<nat>, dm': Distances)
  {
    forall v :: v in vs ==> v in dm' && dm'[v].dist <= d + w(u, v)
  }

  /** Every pushed entry is no earlier than `d`, nor than its node's entry, and improved on it. */
  predicate Pushed(dm: Distances, f: set<Item>, d: nat, dm': Distances, f': set<Item>)
  {
    forall q :: q in f' && q !in f ==>
      q.1 in dm' && dm'[q.1].dist <= q.0 && d <= q.0 && (q.1 in dm ==> q.0 < dm[q.1].dist)
  }

  /** What relaxing the neighbours `vs` of `u`, popped at `d`, did to `(dm, f)`, giving `(dm', f')`. */
  predicate RelaxedBy(w: (nat, nat) -> nat, dm: Distances, f: set<Item>, u: nat, d: nat, vs: seq<nat>,
                      dm': Distances, f': set<Item>)
  {
    Grown(dm, f, vs, dm', f') && Changed(w, dm, u, d, vs, dm', f')
    && Bounded(w, u, d, vs, dm') && Pushed(dm, f, d, dm', f')
  }

  lemma RelaxSummary(w: (nat, nat) -> nat, dm: Distances, f: set<Item>, u: nat, d: nat, vs: seq<nat>)
    ensures var r := RelaxAll(w, dm, f, u, d, vs); RelaxedBy(w, dm, f, u, d, vs, r.0, r.1)
  {
    RelaxKeys(w, dm, f, u, d, vs);
    RelaxBound(w, dm, f, u, d, vs);
    RelaxChanged(w, dm, f, u, d, vs);
    RelaxPushed(w, dm, f, u, d, vs);
  }

  /** Every node of `s` has the same entry in `dm` and `dm'`. */
  predicate Untouched(s: set<nat>, dm: Distances, dm': Distances)
  {
    forall x :: x in s ==> x in dm && x in dm' && dm'[x] == dm[x]
  }

  /** Relaxing the edges of a popped node changes no settled entry, nor the popped one. */
  lemma Kept(src: nat, w: (nat, nat) -> nat, dm: Distances, f: set<Item>, settled: set<nat>,
             d: nat, u: nat, vs: seq<nat>, dm': Distances, f': set<Item>)
    requires settled <= dm.Keys && Frontier(src, dm, f, settled) && Popped(dm, f, d, u)
    requires RelaxedBy(w, dm, f - {(d, u)}, u, d, vs, dm', f')
    ensures u !in settled
    ensures Untouched(settled + {u}, dm, dm')
  {
    forall x | x in settled + {u}
      ensures x in dm && x in dm' && dm'[x] == dm[x]
    {
      assert dm[x].dist <= d;
    }
  }

  lemma SettleRooted(adj: Adjacency, w: (nat, nat) -> nat, src: nat, dm: Distances, f: set<Item>,
                     settled: set<nat>, d: nat, u: nat, dm': Distances, f': set<Item>)
    requires Closed(adj) && Rooted(adj, src, dm, settled) && Frontier(src, dm, f, settled) && Popped(dm, f, d, u)
    requires RelaxedBy(w, dm, f - {(d, u)}, u, d, adj[u], dm', f')
    requires Untouched(settled + {u}, dm, dm')
    ensures Rooted(adj, src, dm', settled + {u})
  {
    if settled == {} {
      assert u == src;
    }
  }

  /** Entries relaxing left alone keep a valid parent. */
  lemma ParentsKept(adj: Adjacency, w: (nat, nat) -> nat, src: nat, dm: Distances, settled: set<nat>,
                    order: map<nat, nat>, u: nat, dm': Distances)
    requires Parents(adj, w, src, dm, settled, order) && u !in settled
    requires Untouched(settled + {u}, dm, dm')
    ensures forall k :: k in dm' && k != src && k in dm && dm'[k] == dm[k] ==>
      ParentOk(adj, w, dm', settled + {u}, order[u := |settled|], k)
  {
    forall k | k in dm' && k != src && k in dm && dm'[k] == dm[k]
      ensures ParentOk(adj, w, dm', settled + {u}, order[u := |settled|], k)
    {
      assert ParentOk(adj, w, dm, settled, order, k);
      var p := dm[k].parent;
      assert p in settled && dm'[p] == dm[p];
    }
  }

  /** Entries relaxing changed have the popped node, now settled, as their parent. */
  lemma ParentsNew(adj: Adjacency, w: (nat, nat) -> nat, dm: Distances, settled: set<nat>, order: map<nat, nat>,
                   u: nat, d: nat, dm': Distances, f': set<Item>)
    requires u < |adj| && u in dm && d == dm[u].dist
    requires Untouched(settled + {u}, dm, dm') && Changed(w, dm, u, d, adj[u], dm', f')
    ensures forall k :: k in dm' && (k !in dm || dm'[k] != dm[k]) ==>
      ParentOk(adj, w, dm', settled + {u}, order[u := |settled|], k)
  {
  }

  lemma SettleParents(adj: Adjacency, w: (nat, nat) -> nat, src: nat, dm: Distances,
                      settled: set<nat>, order: map<nat, nat>, d: nat, u: nat, dm': Distances, f': set<Item>)
    requires settled <= dm.Keys && Parents(adj, w, src, dm, settled, order)
    requires u < |adj| && u in dm && d == dm[u].dist && u !in settled
    requires Changed(w, dm, u, d, adj[u], dm', f')
    requires Untouched(settled + {u}, dm, dm')
    ensures Parents(adj, w, src, dm', settled + {u}, order[u := |settled|])
  {
    ParentsKept(adj, w, src, dm, settled, order, u, dm');
    ParentsNew(adj, w, dm, settled, order, u, d, dm', f');
    OrderStep(settled, order, u);
  }

  /** Numbering a newly settled node after all the others. */
  lemma OrderStep(settled: set<nat>, order: map<nat, nat>, u: nat)
    requires order.Keys == settled && (forall k :: k in settled ==> order[k] < |settled|) && u !in settled
    ensures var o' := order[u := |settled|];
      o'.Keys == settled + {u} && forall k :: k in settled + {u} ==> o'[k] < |settled + {u}|
  {
    assert |settled + {u}| == |settled| + 1;
  }

  lemma SettleFinal(adj: Adjacency, w: (nat, nat) -> nat, src: nat, dm: Distances,
                    settled: set<nat>, d: nat, u: nat, dm': Distances, f': set<Item>, f1: set<Item>)
    requires settled <= dm.Keys && Final(adj, w, src, dm, settled) && u < |adj| && u in dm && d == dm[u].dist
    requires Shortest(adj, w, src, u, d)
    requires Grown(dm, f1, adj[u], dm', f') && Bounded(w, u, d, adj[u], dm')
    requires Untouched(settled + {u}, dm, dm')
    ensures Final(adj, w, src, dm', settled + {u})
  {
  }

  lemma SettleFrontier(src: nat, w: (nat, nat) -> nat, dm: Distances, f: set<Item>,
                       settled: set<nat>, d: nat, u: nat, vs: seq<nat>, dm': Distances, f': set<Item>)
    requires settled <= dm.Keys && Frontier(src, dm, f, settled) && Popped(dm, f, d, u)
    requires RelaxedBy(w, dm, f - {(d, u)}, u, d, vs, dm', f')
    requires Untouched(settled + {u}, dm, dm')
    ensures Frontier(src, dm', f', settled + {u})
  {
    forall k | k in dm' && k !in settled + {u}
      ensures (dm'[k].dist, k) in f'
    {
      if k in dm && dm'[k] == dm[k] {
        assert (dm[k].dist, k) in f - {(d, u)};
      }
    }
    forall x, q | x in settled + {u} && q in f'
      ensures dm'[x].dist <= q.0
    {
      if q in f - {(d, u)} {
        assert NoLater((d, u), q);
      }
    }
  }

  /** Settling a popped node that is not a target, and relaxing its edges, keeps the invariant. */
  lemma SettleStep(adj: Adjacency, w: (nat, nat) -> nat, src: nat, dm: Distances, f: set<Item>,
                   settled: set<nat>, order: map<nat, nat>, d: nat, u: nat, dm': Distances, f': set<Item>)
    requires Closed(adj) && Inv(adj, w, src, dm, f, settled, order) && Popped(dm, f, d, u)
    requires (dm', f') == RelaxAll(w, dm, f - {(d, u)}, u, d, adj[u])
    ensures u < |adj| && u !in settled
    ensures Inv(adj, w, src, dm', f', settled + {u}, order[u := |settled|])
  {
    RelaxSummary(w, dm, f - {(d, u)}, u, d, adj[u]);
    Kept(src, w, dm, f, settled, d, u, adj[u], dm', f');
    PopBound(adj, w, src, dm, f, settled, order, d, u);
    assert Shortest(adj, w, src, u, d);
    SettleRooted(adj, w, src, dm, f, settled, d, u, dm', f');
    SettleParents(adj, w, src, dm, settled, order, d, u, dm', f');
    SettleFinal(adj, w, src, dm, settled, d, u, dm', f', f - {(d, u)});
    SettleFrontier(src, w, dm, f, settled, d, u, adj[u], dm', f');
  }

  /** Once the frontier is empty with no target settled, no walk from the source reaches a target. */
  lemma NoTarget(adj: Adjacency, w: (nat, nat) -> nat, src: nat, dm: Distances,
                 settled: set<nat>, order: map<nat, nat>, targets: set<nat>)
    requires Inv(adj, w, src, dm, {}, settled, order) && settled !! targets
    ensures forall p :: Walk(adj, p) && p[0] == src ==> p[|p| - 1] !in targets
  {
    Exhausted(adj, w, src, dm, settled, order);
  }

  /** A target popped at its current distance is at least as near as every target. */
  lemma Nearest(adj: Adjacency, w: (nat, nat) -> nat, src: nat, dm: Distances, f: set<Item>,
                settled: set<nat>, order: map<nat, nat>, targets: set<nat>, d: nat, u: nat)
    requires Inv(adj, w, src, dm, f, settled, order) && settled !! targets && Popped(dm, f, d, u)
    ensures forall p :: Walk(adj, p) && p[0] == src && p[|p| - 1] in targets ==> d <= Weight(w, p)
  {
    PopBound(adj, w, src, dm, f, settled, order, d, u);
  }

  /** The position of a node in the order nodes were settled; unsettled nodes come last. */
  ghost function Rank(settled: set<nat>, order: map<nat, nat>, k: nat): nat
  {
    if k in order then order[k] else |settled|
  }

  /** Putting an edge in front of a walk adds its weight. */
  lemma {:induction false} WeightCons(w: (nat, nat) -> nat, x: nat, q: seq<nat>)
    requires |q| >= 1
    ensures Weight(w, [x] + q) == w(x, q[0]) + Weight(w, q)
    decreases |q|
  {
    if |q| > 1 {
      var q' := q[..|q| - 1];
      assert ([x] + q)[..|q|] == [x] + q';
      WeightCons(w, x, q');
    }
  }

  /** `b` is a walk read backwards: each node is a successor of the next. */
  predicate BackWalk(adj: Adjacency, b: seq<nat>)
  {
    (forall i :: 0 <= i < |b| ==> b[i] < |adj|)
    && forall i :: 0 <= i < |b| - 1 ==> b[i] in adj[b[i + 1]]
  }

  /** The weight of the walk `b` read backwards. */
  function BackWeight(w: (nat, nat) -> nat, b: seq<nat>): nat
    decreases |b|
  {
    if |b| <= 1 then 0 else BackWeight(w, b[..|b| - 1]) + w(b[|b| - 1], b[|b| - 2])
  }

  /** Reversing a backwards walk gives a walk of the same weight. */
  lemma {:induction false} Reversed(adj: Adjacency, w: (nat, nat) -> nat, b: seq<nat>)
    requires |b| > 0 && BackWalk(adj, b)
    ensures Walk(adj, Reverse(b)) && Weight(w, Reverse(b)) == BackWeight(w, b)
    decreases |b|
  {
    if |b| > 1 {
      var b' := b[..|b| - 1];
      assert BackWalk(adj, b');
      Reversed(adj, w, b');
      var q := Reverse(b');
      assert Reverse(b) == [b[|b| - 1]] + q;
      WeightCons(w, b[|b| - 1], q);
    }
  }

  lemma BackSnoc(adj: Adjacency, w: (nat, nat) -> nat, b: seq<nat>, p: nat)
    requires |b| > 0 && BackWalk(adj, b) && p < |adj| && b[|b| - 1] in adj[p]
    ensures BackWalk(adj, b + [p]) && BackWeight(w, b + [p]) == BackWeight(w, b) + w(p, b[|b| - 1])
  {
    var b' := b + [p];
    assert b'[..|b|] == b;
    forall i | 0 <= i < |b'| - 1
      ensures b'[i] in adj[b'[i + 1]]
    {
      if i < |b| - 1 {
        assert b'[i] == b[i] && b'[i + 1] == b[i + 1];
      }
    }
  }

  /**
   * One step of the path reconstruction: appending the parent of the last
   * node of `back` extends the walk by one edge and moves the remaining
   * distance to the parent's.
   */
  lemma BackStep(adj: Adjacency, w: (nat, nat) -> nat, src: nat, dm: Distances, settled: set<nat>,
                 order: map<nat, nat>, cur: nat, back: seq<nat>)
    requires Rooted(adj, src, dm, settled) && Parents(adj, w, src, dm, settled, order)
    requires |back| > 0 && back[|back| - 1] in dm && back[|back| - 1] != src
    requires BackWalk(adj, back) && cur in dm
    requires BackWeight(w, back) + dm[back[|back| - 1]].dist == dm[cur].dist
    ensures var last := back[|back| - 1]; var p := dm[last].parent;
      p in dm && BackWalk(adj, back + [p])
      && BackWeight(w, back + [p]) + dm[p].dist == dm[cur].dist
      && Rank(settled, order, p) < Rank(settled, order, last)
  {
    var last := back[|back| - 1];
    assert ParentOk(adj, w, dm, settled, order, last);
    var p := dm[last].parent;
    BackSnoc(adj, w, back, p);
  }

  /**
   * The path reconstruction: follow the parents back from `cur` to the
   * source, then reverse.
   */
  method Reconstruct(adj: Adjacency, w: (nat, nat) -> nat, src: nat, dm: Distances, ghost settled: set<nat>,
                     ghost order: map<nat, nat>, cur: nat) returns (path: seq<nat>)
    requires Rooted(adj, src, dm, settled) && Parents(adj, w, src, dm, settled, order) && cur in dm
    ensures Route(adj, path, src, cur) && Weight(w, path) == dm[cur].dist
  {
    var back := [cur];
    while back[|back| - 1] != src && back[|back| - 1] in dm
      invariant |back| > 0 && back[0] == cur && back[|back| - 1] in dm
      invariant BackWalk(adj, back)
      invariant BackWeight(w, back) + dm[back[|back| - 1]].dist == dm[cur].dist
      decreases Rank(settled, order, back[|back| - 1])
    {
      BackStep(adj, w, src, dm, settled, order, cur, back);
      back := back + [dm[back[|back| - 1]].parent];
    }
    Reversed(adj, w, back);
    path := Reverse(back);
  }

  /**
   * `dijkstra`: the distance from `source` to the nearest node of
   * `targets` and a path of that weight, or -1 and an empty path when no
   * target is reachable. `w(u, v)` is the weight of the edge from `u` to
   * `v`, as `get_distance` reports it.
   */
  method Dijkstra(adj: Adjacency, w: (nat, nat) -> nat, source: nat, targets: set<nat>)
    returns (dist: int, path: seq<nat>)
    requires Closed(adj) && source < |adj|
    ensures dist == -1 ==> path == [] && forall p :: Walk(adj, p) && p[0] == source ==> p[|p| - 1] !in targets
    ensures dist != -1 ==>
      (dist >= 0 && |path| > 0 && Route(adj, path, source, path[|path| - 1])
       && path[|path| - 1] in targets && Weight(w, path) == dist)
    ensures dist != -1 ==> forall p :: Walk(adj, p) && p[0] == source && p[|p| - 1] in targets ==> dist <= Weight(w, p)
  {
    var dm: Distances := map[source := Tentative(0, source)];
    var f := {(0, source)};
    ghost var settled: set<nat> := {};
    ghost var order: map<nat, nat> := map[];
    Start(adj, w, source);
    while f != {}
      invariant Inv(adj, w, source, dm, f, settled, order) && settled !! targets
      decreases Nodes(|adj|) - settled, |f|
    {
      var d, u, rest := PopLeast(f);
      assert u in dm;
      if d != dm[u].dist {
        StaleStep(adj, w, source, dm, f, settled, order, d, u);
        f := rest;
      } else if u in targets {
        Nearest(adj, w, source, dm, f, settled, order, targets, d, u);
        path := Reconstruct(adj, w, source, dm, settled, order, u);
        return d, path;
      } else {
        var dm', f' := Relax(adj, w, u, d, dm, rest);
        SettleStep(adj, w, source, dm, f, settled, order, d, u, dm', f');
        dm, f, settled, order := dm', f', settled + {u}, order[u := |settled|];
      }
    }
    NoTarget(adj, w, source, dm, settled, order, targets);
    return -1, [];
  }
}
