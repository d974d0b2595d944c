/**
 * Breadth-first search from aoc_lib/src/graph_traversal.hpp (`bfs` with
 * `use_seen` set). The frontier of each level is a set, walked in an order
 * the model leaves open; `visit` is recorded as the log of its calls and
 * `is_target` is the set of targets.
 */
module Bfs {
  import opened Graphs

  /** One call `visit(key, distance)`. */
  datatype Visit = Visit(key: nat, distance: nat)

  /** `d` is the first level from `sources` that holds a target. */
  predicate FirstHit(adj: Adjacency, sources: set<nat>, targets: set<nat>, d: nat)
  {
    targets * Within(adj, sources, d) != {} && (d == 0 || targets !! Within(adj, sources, d - 1))
  }

  /** Each node is visited at most once, and with its true distance from `sources`. */
  predicate VisitsExact(adj: Adjacency, sources: set<nat>, visits: seq<Visit>)
  {
    (forall i :: 0 <= i < |visits| ==> visits[i].key in Layer(adj, sources, visits[i].distance))
    && (forall i, j :: 0 <= i < j < |visits| ==> visits[i].key != visits[j].key)
  }

  /** The nodes `visit` was called on. */
  function Keys(visits: seq<Visit>): set<nat>
  {
    set i | 0 <= i < |visits| :: visits[i].key
  }

  lemma KeysSnoc(visits: seq<Visit>, v: Visit)
    ensures Keys(visits + [v]) == Keys(visits) + {v.key}
  {
    var vs := visits + [v];
    assert forall i :: 0 <= i < |visits| ==> vs[i] == visits[i];
    assert vs[|visits|] == v;
  }

  /**
   * `after` is `before` followed by visits at distance `d` to nodes of
   * `queue`, and the nodes visited on the way are exactly `done`.
   */
  ghost predicate VisitedLevel(before: seq<Visit>, after: seq<Visit>, d: nat, queue: set<nat>, done: set<nat>)
  {
    && before <= after
    && (forall i :: |before| <= i < |after| ==> after[i].distance == d && after[i].key in queue)
    && Keys(after) == Keys(before) + done
    && (forall k :: k in done ==> Visit(k, d) in after[|before|..])
  }

  lemma VisitedLevelSnoc(before: seq<Visit>, after: seq<Visit>, d: nat, queue: set<nat>, done: set<nat>, key: nat)
    requires VisitedLevel(before, after, d, queue, done) && key in queue
    ensures VisitedLevel(before, after + [Visit(key, d)], d, queue, done + {key})
  {
    var after' := after + [Visit(key, d)];
    KeysSnoc(after, Visit(key, d));
    assert after'[|before|..] == after[|before|..] + [Visit(key, d)];
    assert forall i :: 0 <= i < |after| ==> after'[i] == after[i];
  }

  /** Every visit so far passed a distance below `d`. */
  predicate Below(visits: seq<Visit>, d: nat)
  {
    forall i :: 0 <= i < |visits| ==> visits[i].distance < d
  }

  /**
   * A node of level `d` not among the level's nodes visited so far has not
   * been visited at all.
   */
  lemma FreshKey(adj: Adjacency, sources: set<nat>, visits: seq<Visit>, d: nat, done: set<nat>, key: nat)
    requires VisitsExact(adj, sources, visits)
    requires forall i :: 0 <= i < |visits| ==> visits[i].distance < d || visits[i].key in done
    requires key in Layer(adj, sources, d) && key !in done
    ensures VisitsExact(adj, sources, visits + [Visit(key, d)])
  {
    forall i | 0 <= i < |visits| && visits[i].distance < d
      ensures visits[i].key != key
    {
      LayersDisjoint(adj, sources, visits[i].distance, d);
    }
    var vs := visits + [Visit(key, d)];
    assert forall i :: 0 <= i < |visits| ==> vs[i] == visits[i];
    assert vs[|visits|] == Visit(key, d);
  }

  /**
   * Reports the neighbours of `key`: each one not yet seen is marked seen and
   * queued for the next level. `within` is the set of nodes queued on earlier
   * levels or this one.
   */
  method QueueNeighbours(adj: Adjacency, key: nat, ghost within: set<nat>, seen: set<nat>, next: set<nat>)
      returns (seen': set<nat>, next': set<nat>)
    requires Closed(adj) && key < |adj| && InGraph(adj, seen)
    requires seen == within + next && next !! within
    ensures next' == (next + Elems(adj[key])) - within
    ensures seen' == within + next'
    ensures InGraph(adj, seen')
  {
    seen', next' := seen, next;
    var j := 0;
    while j < |adj[key]|
      invariant j <= |adj[key]|
      invariant next' == (next + Elems(adj[key][..j])) - within
      invariant seen' == within + next'
      invariant InGraph(adj, seen')
    {
      var n := adj[key][j];
      assert n in adj[key];
      assert Elems(adj[key][..j + 1]) == Elems(adj[key][..j]) + {n} by {
        assert adj[key][..j + 1] == adj[key][..j] + [n];
      }
      if n !in seen' {
        assert n !in within;
        seen', next' := seen' + {n}, next' + {n};
      } else {
        assert n in within || n in next';
      }
      j := j + 1;
    }
    assert adj[key][..j] == adj[key];
  }

  /**
   * Expands level `d`, visiting its nodes in any order. Either some node of
   * the level is a target, or the whole level is visited and `next` holds
   * what it reaches that was not seen before.
   */
  method ExpandLevel(adj: Adjacency, ghost sources: set<nat>, targets: set<nat>, d: nat,
                     queue: set<nat>, seen: set<nat>, visits: seq<Visit>)
      returns (hit: bool, next: set<nat>, seen': set<nat>, visits': seq<Visit>)
    requires Closed(adj) && InGraph(adj, seen) && queue <= seen
    requires queue == Layer(adj, sources, d)
    requires VisitsExact(adj, sources, visits) && Below(visits, d)
    ensures VisitsExact(adj, sources, visits') && Below(visits', d + 1)
    ensures visits <= visits'
    ensures forall i :: |visits| <= i < |visits'| ==> visits'[i].distance == d && visits'[i].key in queue
    ensures hit ==> targets * queue != {}
    ensures hit ==> |visits'| > |visits| && visits'[|visits'| - 1].key in targets
    ensures !hit ==> targets !! queue && next == Succ(adj, queue) - seen && seen' == seen + next
    ensures !hit ==> Keys(visits') == Keys(visits) + queue
    ensures !hit ==> forall k :: k in queue ==> Visit(k, d) in visits'[|visits|..]
    ensures InGraph(adj, seen')
  {
    next, seen', visits' := {}, seen, visits;
    var remaining := queue;
    while remaining != {}
      invariant remaining <= queue
      invariant next == Succ(adj, queue - remaining) - seen
      invariant seen' == seen + next && seen !! next
      invariant targets !! (queue - remaining)
      invariant VisitsExact(adj, sources, visits') && Below(visits', d + 1)
      invariant forall i :: 0 <= i < |visits'| ==> visits'[i].distance < d || visits'[i].key in queue - remaining
      invariant VisitedLevel(visits, visits', d, queue, queue - remaining)
      invariant InGraph(adj, seen')
    {
      var key :| key in remaining;
      ghost var done := queue - remaining;
      remaining := remaining - {key};
      FreshKey(adj, sources, visits', d, done, key);
      VisitedLevelSnoc(visits, visits', d, queue, done, key);
      visits' := visits' + [Visit(key, d)];
      if key in targets {
        return true, next, seen', visits';
      }
      seen', next := QueueNeighbours(adj, key, seen, seen', next);
      SuccInsert(adj, done, key);
      assert queue - remaining == done + {key};
    }
    hit := false;
  }

  /**
   * The search with each node marked seen when it is first queued. Returns
   * the distance of the first level holding a target, or -1 when no target
   * is reachable, and the calls made to `visit`.
   */
  method Search(adj: Adjacency, sources: set<nat>, targets: set<nat>)
      returns (distance: int, visits: seq<Visit>)
    requires Closed(adj) && InGraph(adj, sources)
    ensures distance >= 0 ==> FirstHit(adj, sources, targets, distance)
    ensures distance < 0 ==> distance == -1 && targets !! Reachable(adj, sources)
    ensures VisitsExact(adj, sources, visits)
    ensures distance < 0 ==> Keys(visits) == Reachable(adj, sources)
    ensures distance > 0 ==> Within(adj, sources, distance - 1) <= Keys(visits)
    ensures distance >= 0 ==>
      |visits| > 0 && visits[|visits| - 1] == Visit(visits[|visits| - 1].key, distance)
      && visits[|visits| - 1].key in targets
  {
    var queue := sources;
    var seen := sources;
    var d: nat := 0;
    visits := [];
    while queue != {}
      invariant Levels(adj, sources, d) == Level(queue, seen)
      invariant targets !! (seen - queue)
      invariant VisitsExact(adj, sources, visits) && Below(visits, d)
      invariant Keys(visits) == seen - queue
      invariant InGraph(adj, seen)
      decreases |adj| - d
    {
      LayerBound(adj, sources, d);
      var hit, next, seen', visits' := ExpandLevel(adj, sources, targets, d, queue, seen, visits);
      if hit {
        HitAt(adj, sources, targets, d);
        if d > 0 {
          EarlierLevels(adj, sources, d);
        }
        KeysPrefix(visits, visits');
        return d, visits';
      }
      NextKeys(Keys(visits'), Keys(visits), seen, queue, next);
      queue, seen, visits := next, seen', visits';
      d := d + 1;
    }
    Exhausted(adj, sources, d);
    LevelsWithin(adj, sources, d);
    WithinReachable(adj, sources, d);
    return -1, visits;
  }

  lemma KeysPrefix(before: seq<Visit>, after: seq<Visit>)
    requires before <= after
    ensures Keys(before) <= Keys(after)
  {
    assert forall i :: 0 <= i < |before| ==> after[i] == before[i];
  }

  /** Visiting a whole level moves it from the frontier to the nodes visited. */
  lemma NextKeys(keys': set<nat>, keys: set<nat>, seen: set<nat>, queue: set<nat>, next: set<nat>)
    requires keys == seen - queue && keys' == keys + queue && queue <= seen && seen !! next
    ensures keys' == (seen + next) - next
  {
  }

  /** What a search has reached before level `d` is everything within `d - 1` edges. */
  lemma EarlierLevels(adj: Adjacency, sources: set<nat>, d: nat)
    requires d > 0
    ensures Levels(adj, sources, d).reached - Layer(adj, sources, d) == Within(adj, sources, d - 1)
  {
    LevelsWithin(adj, sources, d);
    WithinMono(adj, sources, d - 1, d);
  }

  /** A target on level `d` with none reached before it is a first hit. */
  lemma HitAt(adj: Adjacency, sources: set<nat>, targets: set<nat>, d: nat)
    requires targets * Layer(adj, sources, d) != {}
    requires targets !! (Levels(adj, sources, d).reached - Layer(adj, sources, d))
    ensures FirstHit(adj, sources, targets, d)
  {
    LevelsWithin(adj, sources, d);
    if d > 0 {
      WithinMono(adj, sources, d - 1, d);
    }
  }

  /** An empty level means nothing further is reachable. */
  lemma Exhausted(adj: Adjacency, sources: set<nat>, d: nat)
    requires Layer(adj, sources, d) == {}
    ensures Reachable(adj, sources) <= Levels(adj, sources, d).reached
  {
    LevelsWithin(adj, sources, d);
    LevelsWithin(adj, sources, d + 1);
    WithinStable(adj, sources, d, |adj|);
  }

  /**
   * One level of the search as written: each key of `order` is marked seen
   * only when it is expanded, and its neighbours not yet seen at that moment
   * join the next level.
   */
  function LevelAsWritten(adj: Adjacency, order: seq<nat>, seen: set<nat>): (r: (set<nat>, set<nat>))
    requires forall i :: 0 <= i < |order| ==> order[i] < |adj|
    ensures r.0 == seen + set k | k in order
    ensures r.1 !! seen
  {
    if order == [] then (seen, {})
    else
      var (marked, next) := LevelAsWritten(adj, order[..|order| - 1], seen);
      var key := order[|order| - 1];
      assert order == order[..|order| - 1] + [key];
      (marked + {key}, next + (Elems(adj[key]) - (marked + {key})))
  }

  /**
   * As written, a node can be expanded on two levels: from source 0 with
   * edges 0->1, 0->2, 1->2, expanding level 1 in the order 1, 2 queues 2
   * again, so `visit(2, 2)` follows `visit(2, 1)` although 2 lies at
   * distance 1.
   */
  lemma AsWrittenExpandsTwice()
    ensures var adj := [[1, 2], [2], []];
      var (seen1, level1) := LevelAsWritten(adj, [0], {});
      var (seen2, level2) := LevelAsWritten(adj, [1, 2], seen1);
      level1 == {1, 2} && 2 in level2 && 2 in Layer(adj, {0}, 1) && 2 !in Layer(adj, {0}, 2)
  {
    var adj := [[1, 2], [2], []];
    assert Elems(adj[0]) == {1, 2};
    assert Elems(adj[1]) == {2};
    assert [0][..0] == [];
    var r1 := LevelAsWritten(adj, [0], {});
    assert r1.0 == {0};
    assert r1.1 == Elems(adj[0]) - {0} == {1, 2};
    assert [1, 2][..1] == [1];
    assert [1][..0] == [];
    var r := LevelAsWritten(adj, [1], {0});
    assert r.0 == {0, 1};
    assert r.1 == Elems(adj[1]) - {0, 1} == {2};
    var r2 := LevelAsWritten(adj, [1, 2], {0});
    assert r2.1 == {2};
    assert Succ(adj, {0}) == {1, 2} by {
      assert 1 in adj[0] && 2 in adj[0];
    }
    assert Layer(adj, {0}, 1) == {1, 2};
  }
}
