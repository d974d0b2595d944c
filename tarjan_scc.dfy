/**
 * `tarjan_scc` from aoc_lib/src/graph_traversal.hpp: Tarjan's strongly
 * connected components algorithm over the nodes reachable from a list of
 * sources. Each visited node gets an entry with its visiting index, its
 * lowlink, the id of its component (-1 while it is on the stack) and the
 * ids of already finished components its edges lead to. Components are
 * numbered in the order they are completed; the result is reversed at the
 * end so that edges between components point forwards.
 */
module TarjanScc {
  import opened Graphs

  /** `detail::tarjan_entry`. */
  datatype Entry = Entry(index: nat, lowlink: nat, component: int, pending: seq<int>)

  /**
   * The variables the `strongconnect` lambda captures: the next index, the
   * stack `S`, the completed components, the entries and the links between
   * components found so far.
   */
  datatype State = State(index: nat, stack: seq<nat>, components: seq<seq<nat>>,
                         entries: map<nat, Entry>, links: set<(int, int)>)

  /** The stack holds visited nodes in strictly increasing index order. */
  ghost predicate StackOrdered(st: State)
  {
    (forall i :: 0 <= i < |st.stack| ==> st.stack[i] in st.entries)
    && forall i, j :: 0 <= i < j < |st.stack| ==> st.entries[st.stack[i]].index < st.entries[st.stack[j]].index
  }

  /**
   * Every visited node is a reachable node of the graph with an index below
   * the counter and a valid component id, and it is on the stack exactly
   * while its component id is -1.
   */
  ghost predicate EntriesOk(adj: Adjacency, reach: set<nat>, st: State)
  {
    forall u :: u in st.entries ==>
      u < |adj| && u in reach && st.entries[u].index < st.index
      && -1 <= st.entries[u].component < |st.components|
      && (st.entries[u].component == -1 <==> u in st.stack)
  }

  /** `reach` holds the successors of its members: it stands for the nodes reachable from the sources. */
  predicate ReachClosed(adj: Adjacency, reach: set<nat>)
  {
    forall u, w :: u in reach && u < |adj| && w in adj[u] ==> w in reach
  }

  /** The lowlink of a node on the stack lies between the bottom node's index and its own. */
  ghost predicate LowOk(st: State)
  {
    forall u :: u in st.stack ==>
      st.stack[0] in st.entries && u in st.entries
      && st.entries[st.stack[0]].index <= st.entries[u].lowlink <= st.entries[u].index
  }

  /** Component `c` lists, once each, exactly the nodes whose id is `c`, and is not empty. */
  ghost predicate ComponentsOk(st: State)
  {
    (forall c, i :: 0 <= c < |st.components| && 0 <= i < |st.components[c]| ==>
       st.components[c][i] in st.entries && st.entries[st.components[c][i]].component == c)
    && (forall u :: u in st.entries && 0 <= st.entries[u].component < |st.components| ==>
          u in st.components[st.entries[u].component])
    && (forall c, i, j :: 0 <= c < |st.components| && 0 <= i < j < |st.components[c]| ==>
          st.components[c][i] != st.components[c][j])
    && (forall c :: 0 <= c < |st.components| ==> |st.components[c]| > 0)
  }

  /**
   * The edges out of a completed component lead to completed components
   * with an id no larger, and each edge to a smaller id is recorded as a link.
   */
  ghost predicate AssignedClosed(adj: Adjacency, st: State)
  {
    forall u, w :: u in st.entries && u < |adj| && st.entries[u].component >= 0 && w in adj[u] ==>
      w in st.entries && 0 <= st.entries[w].component <= st.entries[u].component
      && (st.entries[w].component < st.entries[u].component ==>
            (st.entries[u].component, st.entries[w].component) in st.links)
  }

  /** The pairs of distinct component ids joined by an edge. */
  ghost function Cross(adj: Adjacency, entries: map<nat, Entry>): set<(int, int)>
  {
    set u, w | u in entries && u < |adj| && w in adj[u] && w in entries
                && entries[u].component >= 0 && entries[w].component >= 0
                && entries[u].component != entries[w].component
      :: (entries[u].component, entries[w].component)
  }

  lemma InCross(adj: Adjacency, m: map<nat, Entry>, u: nat, w: nat)
    requires u in m && u < |adj| && w in adj[u] && w in m
    requires m[u].component >= 0 && m[w].component >= 0 && m[u].component != m[w].component
    ensures (m[u].component, m[w].component) in Cross(adj, m)
  {
  }

  /** Every recorded link joins two components by an edge, from a later id to an earlier one. */
  ghost predicate LinksOk(adj: Adjacency, st: State)
  {
    forall l :: l in st.links ==> l in Cross(adj, st.entries) && l.1 < l.0
  }

  /** The ids of the completed components that `u`'s edges lead to. */
  ghost function SuccComps(adj: Adjacency, entries: map<nat, Entry>, u: nat): set<int>
    requires u < |adj|
  {
    set w | w in adj[u] && w in entries && entries[w].component >= 0 :: entries[w].component
  }

  /**
   * The first `k` edges of `u` are processed: each leads to a visited node
   * that is either completed, with its id among `u`'s pending ids, or on the
   * stack with an index no smaller than `u`'s lowlink; and every pending id
   * is the id of a component an edge of `u` leads to.
   */
  ghost predicate EdgesDone(adj: Adjacency, st: State, u: nat, k: nat)
    requires u in st.entries && u < |adj| && k <= |adj[u]|
  {
    (forall i :: 0 <= i < k ==>
       adj[u][i] in st.entries
       && ((st.entries[adj[u][i]].component >= 0 && st.entries[adj[u][i]].component in st.entries[u].pending)
           || (adj[u][i] in st.stack && st.entries[u].lowlink <= st.entries[adj[u][i]].index)))
    && forall x :: x in st.entries[u].pending ==> x in SuccComps(adj, st.entries, u)
  }

  /** Every node on the stack whose call has returned has processed all its edges. */
  ghost predicate FinishedOk(adj: Adjacency, st: State, active: set<nat>)
  {
    forall u :: u in st.stack && u !in active ==>
      u in st.entries && u < |adj| && EdgesDone(adj, st, u, |adj[u]|)
  }

  /** What holds between steps of the search; `active` are the nodes whose calls are running. */
  ghost predicate Inv(adj: Adjacency, reach: set<nat>, st: State, active: set<nat>)
  {
    StackOrdered(st) && EntriesOk(adj, reach, st) && LowOk(st) && ComponentsOk(st)
    && AssignedClosed(adj, st) && LinksOk(adj, st) && FinishedOk(adj, st, active)
  }

  /** `st1` only adds entries, with indices from `st0`'s counter on, and leaves old entries alone. */
  ghost predicate Extends(st0: State, st1: State)
  {
    st0.entries.Keys <= st1.entries.Keys && st0.index <= st1.index
    && (forall u :: u in st0.entries ==> st1.entries[u] == st0.entries[u])
    && (forall u :: u in st1.entries && u !in st0.entries ==> st1.entries[u].index >= st0.index)
  }

  lemma ExtendsTrans(st0: State, st1: State, st2: State)
    requires Extends(st0, st1) && Extends(st1, st2)
    ensures Extends(st0, st2)
  {
  }

  /** Entering `strongconnect(v)`: `v` gets the next index as index and lowlink and is pushed. */
  function Push(st: State, v: nat): State
  {
    st.(index := st.index + 1, stack := st.stack + [v], entries := st.entries[v := Entry(st.index, st.index, -1, [])])
  }

  lemma PushOk(adj: Adjacency, reach: set<nat>, st: State, v: nat, active: set<nat>)
    requires Inv(adj, reach, st, active)
    requires v < |adj| && v !in st.entries && v in reach
    ensures Inv(adj, reach, Push(st, v), active + {v})
    ensures Extends(st, Push(st, v))
  {
    PushStack(adj, reach, st, v);
    PushEntries(adj, reach, st, v);
    PushComponents(st, v);
    PushAssigned(adj, st, v);
    PushLinks(adj, st, v);
    PushFinished(adj, st, v, active);
  }

  lemma PushStack(adj: Adjacency, reach: set<nat>, st: State, v: nat)
    requires StackOrdered(st) && LowOk(st) && EntriesOk(adj, reach, st) && v !in st.entries
    ensures StackOrdered(Push(st, v)) && LowOk(Push(st, v))
  {
    var st' := Push(st, v);
    forall i, j | 0 <= i < j < |st'.stack|
      ensures st'.entries[st'.stack[i]].index < st'.entries[st'.stack[j]].index
    {
      assert st.stack[i] in st.entries;
      if j < |st.stack| {
        assert st'.stack[i] == st.stack[i] && st'.stack[j] == st.stack[j];
      }
    }
    if |st.stack| > 0 {
      assert st'.stack[0] == st.stack[0];
      forall u | u in st'.stack
        ensures st'.entries[st'.stack[0]].index <= st'.entries[u].lowlink <= st'.entries[u].index
      {
        if u != v {
          assert u in st.stack;
        }
      }
    }
  }

  lemma PushEntries(adj: Adjacency, reach: set<nat>, st: State, v: nat)
    requires EntriesOk(adj, reach, st) && v < |adj| && v !in st.entries && v in reach
    ensures EntriesOk(adj, reach, Push(st, v))
  {
  }

  lemma PushComponents(st: State, v: nat)
    requires ComponentsOk(st) && v !in st.entries
    ensures ComponentsOk(Push(st, v))
  {
  }

  lemma PushAssigned(adj: Adjacency, st: State, v: nat)
    requires AssignedClosed(adj, st) && v !in st.entries
    ensures AssignedClosed(adj, Push(st, v))
  {
  }

  lemma PushLinks(adj: Adjacency, st: State, v: nat)
    requires LinksOk(adj, st) && v !in st.entries
    ensures LinksOk(adj, Push(st, v))
  {
    var st' := Push(st, v);
    forall l | l in Cross(adj, st.entries)
      ensures l in Cross(adj, st'.entries)
    {
      var u, w :| u in st.entries && u < |adj| && w in adj[u] && w in st.entries
                  && st.entries[u].component >= 0 && st.entries[w].component >= 0
                  && st.entries[u].component != st.entries[w].component
                  && l == (st.entries[u].component, st.entries[w].component);
      assert st'.entries[u] == st.entries[u] && st'.entries[w] == st.entries[w];
    }
  }

  lemma PushFinished(adj: Adjacency, st: State, v: nat, active: set<nat>)
    requires FinishedOk(adj, st, active) && v !in st.entries
    ensures FinishedOk(adj, Push(st, v), active + {v})
  {
    var st' := Push(st, v);
    forall u | u in st'.stack && u !in active + {v}
      ensures u in st'.entries && u < |adj| && EdgesDone(adj, st', u, |adj[u]|)
    {
      assert u in st.stack;
      assert SuccComps(adj, st.entries, u) <= SuccComps(adj, st'.entries, u);
    }
  }

  /** Entries with the same keys, indices and component ids. */
  ghost predicate SameIds(m1: map<nat, Entry>, m2: map<nat, Entry>)
  {
    m1.Keys == m2.Keys
    && forall u :: u in m1 ==> m1[u].index == m2[u].index && m1[u].component == m2[u].component
  }

  lemma SameIdsCross(adj: Adjacency, m1: map<nat, Entry>, m2: map<nat, Entry>)
    requires SameIds(m1, m2)
    ensures Cross(adj, m1) == Cross(adj, m2)
    ensures forall u: nat :: u < |adj| ==> SuccComps(adj, m1, u) == SuccComps(adj, m2, u)
  {
    CrossSub(adj, m1, m2);
    CrossSub(adj, m2, m1);
  }

  lemma CrossSub(adj: Adjacency, m1: map<nat, Entry>, m2: map<nat, Entry>)
    requires SameIds(m1, m2)
    ensures Cross(adj, m1) <= Cross(adj, m2)
  {
    forall l | l in Cross(adj, m1)
      ensures l in Cross(adj, m2)
    {
      var u, w :| u in m1 && u < |adj| && w in adj[u] && w in m1
                  && m1[u].component >= 0 && m1[w].component >= 0
                  && m1[u].component != m1[w].component && l == (m1[u].component, m1[w].component);
      assert l == (m2[u].component, m2[w].component);
    }
  }

  /** Setting the entry of `v`, a node whose call is running. */
  function SetEntry(st: State, v: nat, e: Entry): State
  {
    st.(entries := st.entries[v := e])
  }

  /**
   * Lowering the lowlink of a running node, within the bounds `LowOk`
   * allows, or adding pending ids of components its edges reach, keeps the
   * invariant.
   */
  lemma SetEntryOk(adj: Adjacency, reach: set<nat>, st: State, v: nat, e: Entry, active: set<nat>)
    requires Inv(adj, reach, st, active) && v in active && v in st.stack && v in st.entries
    requires e.index == st.entries[v].index && e.component == st.entries[v].component
    requires st.entries[st.stack[0]].index <= e.lowlink <= e.index
    ensures Inv(adj, reach, SetEntry(st, v, e), active)
  {
    var st' := SetEntry(st, v, e);
    assert SameIds(st.entries, st'.entries);
    SameIdsCross(adj, st.entries, st'.entries);
    SetEntryStack(st, v, e);
    SetEntryFinished(adj, st, v, e, active);
  }

  lemma SetEntryStack(st: State, v: nat, e: Entry)
    requires StackOrdered(st) && LowOk(st) && v in st.stack && v in st.entries
    requires e.index == st.entries[v].index
    requires st.entries[st.stack[0]].index <= e.lowlink <= e.index
    ensures StackOrdered(SetEntry(st, v, e)) && LowOk(SetEntry(st, v, e))
  {
  }

  lemma SetEntryFinished(adj: Adjacency, st: State, v: nat, e: Entry, active: set<nat>)
    requires FinishedOk(adj, st, active) && v in active && v in st.entries
    requires e.index == st.entries[v].index && e.component == st.entries[v].component
    requires forall u: nat :: u < |adj| ==> SuccComps(adj, st.entries, u) == SuccComps(adj, SetEntry(st, v, e).entries, u)
    ensures FinishedOk(adj, SetEntry(st, v, e), active)
  {
  }

  /**
   * The shape of the state inside `strongconnect(v)` entered in state
   * `st0`: `v` was pushed onto `st0`'s stack, everything above it is new,
   * and no lowlink above it is below `v`'s.
   */
  ghost predicate Shape(st0: State, st: State, v: nat)
  {
    Extends(st0, st) && v in st.entries && v !in st0.entries && st.entries[v].index == st0.index
    && |st.stack| > |st0.stack| && st.stack[..|st0.stack|] == st0.stack && st.stack[|st0.stack|] == v
    && forall i :: |st0.stack| < i < |st.stack| ==>
         st.stack[i] in st.entries && st.stack[i] !in st0.entries && st.entries[v].lowlink <= st.entries[st.stack[i]].lowlink
  }

  /** The entry of `v` after its edge to a node with entry `we`, and lowlink candidate `low`. */
  function Relaxed(ev: Entry, low: nat, we: Entry): Entry
  {
    ev.(lowlink := if low < ev.lowlink then low else ev.lowlink,
        pending := if we.component != -1 then ev.pending + [we.component] else ev.pending)
  }

  /**
   * After the `j`-th edge of `v` leads to `w` (visited before, or just
   * searched from `st` to `st1`), relaxing `v`'s entry keeps the frame and
   * marks the edge processed.
   */
  lemma RelaxOk(adj: Adjacency, reach: set<nat>, st0: State, st: State, st1: State, v: nat, j: nat,
                low: nat, active: set<nat>)
    requires v < |adj| && Shape(st0, st, v) && j < |adj[v]| && EdgesDone(adj, st, v, j)
    requires Inv(adj, reach, st1, active + {v}) && Extends(st, st1)
    requires |st1.stack| >= |st.stack| && st1.stack[..|st.stack|] == st.stack
    requires forall i :: |st.stack| <= i < |st1.stack| ==> st1.stack[i] in st1.entries && st1.stack[i] !in st.entries && low <= st1.entries[st1.stack[i]].lowlink
    requires adj[v][j] in st1.entries
    requires st1.entries[adj[v][j]].component >= 0
             || (adj[v][j] in st1.stack && low <= st1.entries[adj[v][j]].index)
    requires st1.entries[st1.stack[0]].index <= low
    ensures Inv(adj, reach, SetEntry(st1, v, Relaxed(st1.entries[v], low, st1.entries[adj[v][j]])), active + {v})
    ensures Shape(st0, SetEntry(st1, v, Relaxed(st1.entries[v], low, st1.entries[adj[v][j]])), v)
    ensures EdgesDone(adj, SetEntry(st1, v, Relaxed(st1.entries[v], low, st1.entries[adj[v][j]])), v, j + 1)
  {
    var w := adj[v][j];
    var e := Relaxed(st1.entries[v], low, st1.entries[w]);
    assert st1.entries[v] == st.entries[v];
    assert v in st1.stack by {
      assert st1.stack[|st0.stack|] == st.stack[|st0.stack|];
    }
    SetEntryOk(adj, reach, st1, v, e, active + {v});
    ExtendsTrans(st0, st, st1);
    RelaxFrame(st0, st, st1, v, e, low);
    RelaxEdges(adj, st, st1, v, j, low);
  }

  lemma RelaxFrame(st0: State, st: State, st1: State, v: nat, e: Entry, low: nat)
    requires Shape(st0, st, v) && Extends(st0, st1) && Extends(st, st1)
    requires |st1.stack| >= |st.stack| && st1.stack[..|st.stack|] == st.stack
    requires forall i :: |st.stack| <= i < |st1.stack| ==> st1.stack[i] in st1.entries && st1.stack[i] !in st.entries && low <= st1.entries[st1.stack[i]].lowlink
    requires e.index == st.entries[v].index && e.lowlink <= st.entries[v].lowlink && e.lowlink <= low
    ensures Shape(st0, SetEntry(st1, v, e), v)
  {
    var st' := SetEntry(st1, v, e);
    assert st'.stack[..|st0.stack|] == st0.stack by {
      assert st'.stack[..|st0.stack|] == st.stack[..|st0.stack|];
    }
    forall i | |st0.stack| < i < |st'.stack|
      ensures st'.stack[i] in st'.entries && st'.stack[i] !in st0.entries && e.lowlink <= st'.entries[st'.stack[i]].lowlink
    {
      if i < |st.stack| {
        assert st'.stack[i] == st.stack[i];
      }
    }
  }

  lemma RelaxEdges(adj: Adjacency, st: State, st1: State, v: nat, j: nat, low: nat)
    requires v < |adj| && j < |adj[v]| && v in st.entries && v in st.stack
    requires EdgesDone(adj, st, v, j) && Extends(st, st1) && forall u :: u in st1.entries ==> (st1.entries[u].component == -1 <==> u in st1.stack)
    requires |st1.stack| >= |st.stack| && st1.stack[..|st.stack|] == st.stack
    requires st1.entries[v].lowlink <= st1.entries[v].index
    requires adj[v][j] in st1.entries
    requires st1.entries[adj[v][j]].component >= 0
             || (adj[v][j] in st1.stack && low <= st1.entries[adj[v][j]].index)
    ensures EdgesDone(adj, SetEntry(st1, v, Relaxed(st1.entries[v], low, st1.entries[adj[v][j]])), v, j + 1)
  {
    var w := adj[v][j];
    var e := Relaxed(st1.entries[v], low, st1.entries[w]);
    var st' := SetEntry(st1, v, e);
    assert st1.entries[v] == st.entries[v];
    forall i | 0 <= i < j + 1
      ensures adj[v][i] in st'.entries
        && ((st'.entries[adj[v][i]].component >= 0 && st'.entries[adj[v][i]].component in e.pending)
            || (adj[v][i] in st'.stack && e.lowlink <= st'.entries[adj[v][i]].index))
    {
      var x := adj[v][i];
      if x == v {
        assert v in st1.stack by {
          assert st1.stack[..|st.stack|] == st.stack;
        }
      } else if i < j {
        assert st'.entries[x] == st.entries[x];
        if x in st.stack {
          assert x in st1.stack by {
            assert st1.stack[..|st.stack|] == st.stack;
          }
        }
      }
    }
    forall y | y in e.pending
      ensures y in SuccComps(adj, st'.entries, v)
    {
      if y in st.entries[v].pending {
        assert y in SuccComps(adj, st.entries, v);
        var x :| x in adj[v] && x in st.entries && st.entries[x].component >= 0 && st.entries[x].component == y;
        assert st'.entries[x] == st.entries[x] by {
          assert x != v;
        }
      } else {
        assert y == st1.entries[w].component;
        assert w != v;
      }
    }
  }

  /** The links a popped component `cid` gains from the pending ids of the nodes in `popped`. */
  ghost function NewLinks(entries: map<nat, Entry>, popped: seq<nat>, cid: int): set<(int, int)>
  {
    set u, x | u in popped && u in entries && x in entries[u].pending :: (cid, x)
  }

  /** The entries once the nodes of `popped` have component id `cid`. */
  function Assign(entries: map<nat, Entry>, popped: seq<nat>, cid: int): map<nat, Entry>
  {
    map u | u in entries :: if u in popped then entries[u].(component := cid) else entries[u]
  }

  /**
   * The state after the root at stack position `base` pops its component:
   * the nodes from `base` up form a new component, listed from the top of
   * the stack down, and their pending ids become links from it.
   */
  ghost function Popped(st: State, base: nat): State
    requires base <= |st.stack|
  {
    var cid := |st.components|;
    var popped := st.stack[base..];
    State(st.index, st.stack[..base], st.components + [Reverse(popped)],
          Assign(st.entries, popped, cid), st.links + NewLinks(st.entries, popped, cid))
  }

  /** `for (int x : entry.pending_edges) component_links.emplace(cid, x)`. */
  method AddLinks(links: set<(int, int)>, cid: int, pending: seq<int>) returns (links': set<(int, int)>)
    ensures links' == links + set x | x in pending :: (cid, x)
  {
    links' := links;
    var k := 0;
    while k < |pending|
      invariant k <= |pending|
      invariant links' == links + set x | x in pending[..k] :: (cid, x)
    {
      links' := links' + {(cid, pending[k])};
      assert pending[..k + 1] == pending[..k] + [pending[k]];
      LinksSnoc(cid, pending[..k], pending[k]);
      k := k + 1;
    }
    assert pending[..k] == pending;
  }

  lemma LinksSnoc(cid: int, s: seq<int>, x: int)
    ensures (set y | y in s + [x] :: (cid, y)) == (set y | y in s :: (cid, y)) + {(cid, x)}
  {
    assert forall y :: y in s + [x] <==> y in s || y == x;
  }

  lemma PopStep(entries: map<nat, Entry>, done: seq<nat>, w: nat, cid: int)
    requires w in entries
    ensures Assign(entries, [w] + done, cid) == Assign(entries, done, cid)[w := entries[w].(component := cid)]
    ensures NewLinks(entries, [w] + done, cid) == NewLinks(entries, done, cid) + set x | x in entries[w].pending :: (cid, x)
    ensures Reverse([w] + done) == Reverse(done) + [w]
  {
  }

  /**
   * The `do ... while (w != v)` loop that pops `v`'s component off the
   * stack, numbering it with the next component id.
   */
  method PopComponent(st: State, v: nat, ghost base: nat) returns (st': State)
    requires base < |st.stack| && st.stack[base] == v
    requires forall i :: base < i < |st.stack| ==> st.stack[i] != v
    requires forall i :: 0 <= i < |st.stack| ==> st.stack[i] in st.entries
    ensures st' == Popped(st, base)
  {
    var cid := |st.components|;
    var top := |st.stack|;
    var entries := st.entries;
    var links := st.links;
    var component: seq<nat> := [];
    while true
      invariant base < top <= |st.stack|
      invariant component == Reverse(st.stack[top..])
      invariant entries == Assign(st.entries, st.stack[top..], cid)
      invariant links == st.links + NewLinks(st.entries, st.stack[top..], cid)
      decreases top
    {
      var w := st.stack[top - 1];
      ghost var done := st.stack[top..];
      top := top - 1;
      assert st.stack[top..] == [w] + done;
      PopStep(st.entries, done, w, cid);
      var entry := entries[w];
      entries := entries[w := entry.(component := cid)];
      links := AddLinks(links, cid, entry.pending);
      component := component + [w];
      if w == v {
        assert top == base;
        break;
      }
    }
    st' := State(st.index, st.stack[..top], st.components + [component], entries, links);
    assert top == base;
  }


  /** Nodes below stack position `base` and nodes from it up are distinct; a node from `base` up has an index at least `stack[base]`'s. */
  lemma StackSplit(st: State, base: nat)
    requires StackOrdered(st) && base < |st.stack|
    ensures forall u :: u in st.stack[base..] ==> u !in st.stack[..base]
    ensures forall i :: base < i < |st.stack| ==> st.stack[i] != st.stack[base]
    ensures forall u :: u in st.stack && st.entries[st.stack[base]].index <= st.entries[u].index ==> u in st.stack[base..]
  {
    forall u | u in st.stack[base..]
      ensures u !in st.stack[..base]
    {
      var j :| base <= j < |st.stack| && st.stack[j] == u;
      if i :| 0 <= i < base && st.stack[i] == u {
        assert false;
      }
    }
    forall u | u in st.stack && st.entries[st.stack[base]].index <= st.entries[u].index
      ensures u in st.stack[base..]
    {
      var j :| 0 <= j < |st.stack| && st.stack[j] == u;
      if j < base {
        assert false;
      } else {
        assert st.stack[base..][j - base] == u;
      }
    }
  }

  lemma PopStack(st: State, base: nat)
    requires StackOrdered(st) && LowOk(st) && base < |st.stack|
    ensures StackOrdered(Popped(st, base)) && LowOk(Popped(st, base))
  {
    var st' := Popped(st, base);
    forall i | 0 <= i < |st'.stack|
      ensures st'.entries[st'.stack[i]].index == st.entries[st.stack[i]].index
      ensures st'.entries[st'.stack[i]].lowlink == st.entries[st.stack[i]].lowlink
    {
      assert st'.stack[i] == st.stack[i];
    }
  }

  lemma PopEntries(adj: Adjacency, reach: set<nat>, st: State, base: nat)
    requires StackOrdered(st) && EntriesOk(adj, reach, st) && base < |st.stack|
    ensures EntriesOk(adj, reach, Popped(st, base))
  {
    StackSplit(st, base);
    var st' := Popped(st, base);
    forall u | u in st'.entries
      ensures st'.entries[u].component == -1 <==> u in st'.stack
    {
      if u !in st.stack[base..] && u in st.stack {
        var j :| 0 <= j < |st.stack| && st.stack[j] == u;
        if j >= base {
          assert false;
        }
        assert st.stack[..base][j] == u;
      }
    }
  }

  lemma PopComponents(st: State, base: nat)
    requires StackOrdered(st) && ComponentsOk(st) && base < |st.stack|
    requires forall u :: u in st.entries ==>
               (-1 <= st.entries[u].component < |st.components| && (st.entries[u].component == -1 <==> u in st.stack))
    ensures ComponentsOk(Popped(st, base))
  {
    StackSplit(st, base);
    PopComponentsMembers(st, base);
    PopComponentsCover(st, base);
    PopComponentsDistinct(st, base);
  }

  lemma PopComponentsMembers(st: State, base: nat)
    requires ComponentsOk(st) && base < |st.stack|
    requires forall i :: 0 <= i < |st.stack| ==> st.stack[i] in st.entries
    requires forall u :: u in st.entries ==> (st.entries[u].component == -1 <==> u in st.stack)
    ensures var st' := Popped(st, base);
      forall c, i :: 0 <= c < |st'.components| && 0 <= i < |st'.components[c]| ==>
        st'.components[c][i] in st'.entries && st'.entries[st'.components[c][i]].component == c
  {
    var st' := Popped(st, base);
    var p := st.stack[base..];
    var cid := |st.components|;
    forall c, i | 0 <= c < |st'.components| && 0 <= i < |st'.components[c]|
      ensures st'.components[c][i] in st'.entries && st'.entries[st'.components[c][i]].component == c
    {
      if c == cid {
        assert st'.components[c][i] == p[|p| - 1 - i];
      } else {
        assert st'.components[c] == st.components[c];
        assert st.components[c][i] !in p;
      }
    }
  }

  lemma PopComponentsCover(st: State, base: nat)
    requires ComponentsOk(st) && base < |st.stack|
    requires forall u :: u in st.entries ==> st.entries[u].component < |st.components|
    ensures var st' := Popped(st, base);
      forall u :: u in st'.entries && 0 <= st'.entries[u].component < |st'.components| ==>
        u in st'.components[st'.entries[u].component]
  {
    var st' := Popped(st, base);
    var p := st.stack[base..];
    forall u | u in st'.entries && 0 <= st'.entries[u].component < |st'.components|
      ensures u in st'.components[st'.entries[u].component]
    {
      if u in p {
        var j :| 0 <= j < |p| && p[j] == u;
        assert Reverse(p)[|p| - 1 - j] == u;
      } else {
        assert u in st.entries && st'.entries[u] == st.entries[u];
        assert st'.components[st'.entries[u].component] == st.components[st.entries[u].component];
      }
    }
  }

  lemma PopComponentsDistinct(st: State, base: nat)
    requires StackOrdered(st) && ComponentsOk(st) && base < |st.stack|
    ensures var st' := Popped(st, base);
      (forall c, i, j :: 0 <= c < |st'.components| && 0 <= i < j < |st'.components[c]| ==>
         st'.components[c][i] != st'.components[c][j])
      && forall c :: 0 <= c < |st'.components| ==> |st'.components[c]| > 0
  {
    var st' := Popped(st, base);
    var cid := |st.components|;
    forall c, i, j | 0 <= c < |st'.components| && 0 <= i < j < |st'.components[c]|
      ensures st'.components[c][i] != st'.components[c][j]
    {
      if c == cid {
        assert st'.components[c][i] == st.stack[|st.stack| - 1 - i];
        assert st'.components[c][j] == st.stack[|st.stack| - 1 - j];
      } else {
        assert st'.components[c] == st.components[c];
      }
    }
  }

  /**
   * The conditions under which the node at stack position `base` pops its
   * component: it is a root (lowlink equal to index), no lowlink above it
   * is lower, every node from it up has returned, and a returned node below
   * it has no edge to a node from it up.
   */
  ghost predicate RootAt(adj: Adjacency, st: State, base: nat, active: set<nat>)
  {
    base < |st.stack| && StackOrdered(st)
    && st.entries[st.stack[base]].lowlink == st.entries[st.stack[base]].index
    && (forall i :: base <= i < |st.stack| ==>
          st.entries[st.stack[base]].lowlink <= st.entries[st.stack[i]].lowlink && st.stack[i] !in active)
    && forall u, w :: u in st.stack[..base] && u !in active && u < |adj| && w in adj[u] && w in st.stack ==>
         w in st.stack[..base]
  }

  ghost predicate PopReady(adj: Adjacency, reach: set<nat>, st: State, base: nat, active: set<nat>)
  {
    RootAt(adj, st, base, active) && EntriesOk(adj, reach, st) && AssignedClosed(adj, st) && FinishedOk(adj, st, active)
  }

  lemma PopAssigned(adj: Adjacency, reach: set<nat>, st: State, base: nat, active: set<nat>)
    requires PopReady(adj, reach, st, base, active)
    ensures AssignedClosed(adj, Popped(st, base))
  {
    var st' := Popped(st, base);
    forall u, w | u in st'.entries && u < |adj| && st'.entries[u].component >= 0 && w in adj[u]
      ensures w in st'.entries && 0 <= st'.entries[w].component <= st'.entries[u].component
              && (st'.entries[w].component < st'.entries[u].component ==>
                    (st'.entries[u].component, st'.entries[w].component) in st'.links)
    {
      if u in st.stack[base..] {
        PopEdgeFromPopped(adj, reach, st, base, active, u, w);
      } else {
        PopEdgeFromOld(adj, reach, st, base, active, u, w);
      }
    }
  }

  /** An edge out of a node completed before is untouched by the pop. */
  lemma PopEdgeFromOld(adj: Adjacency, reach: set<nat>, st: State, base: nat, active: set<nat>, u: nat, w: nat)
    requires PopReady(adj, reach, st, base, active)
    requires u in Popped(st, base).entries && u !in st.stack[base..] && u < |adj| && w in adj[u]
    requires Popped(st, base).entries[u].component >= 0
    ensures var st' := Popped(st, base);
      w in st'.entries && 0 <= st'.entries[w].component <= st'.entries[u].component
      && (st'.entries[w].component < st'.entries[u].component ==>
            (st'.entries[u].component, st'.entries[w].component) in st'.links)
  {
    var st' := Popped(st, base);
    assert u in st.entries;
    assert st'.entries[u] == st.entries[u];
    assert st.entries[w].component >= 0;
    assert w !in st.stack[base..];
    assert st'.entries[w] == st.entries[w];
  }

  /** An edge out of a popped node leads into the new component or to an older one, recorded as a link. */
  lemma PopEdgeFromPopped(adj: Adjacency, reach: set<nat>, st: State, base: nat, active: set<nat>, u: nat, w: nat)
    requires PopReady(adj, reach, st, base, active)
    requires u in Popped(st, base).entries && u in st.stack[base..] && u < |adj| && w in adj[u]
    ensures var st' := Popped(st, base);
      w in st'.entries && 0 <= st'.entries[w].component <= st'.entries[u].component
      && (st'.entries[w].component < st'.entries[u].component ==>
            (st'.entries[u].component, st'.entries[w].component) in st'.links)
  {
    StackSplit(st, base);
    var p := st.stack[base..];
    var cid := |st.components|;
    var j :| 0 <= j < |p| && p[j] == u;
    assert st.stack[base + j] == u;
    var k :| 0 <= k < |adj[u]| && adj[u][k] == w;
    assert EdgesDone(adj, st, u, |adj[u]|);
    if st.entries[w].component >= 0 && st.entries[w].component in st.entries[u].pending {
      assert w !in p;
      assert (cid, st.entries[w].component) in NewLinks(st.entries, p, cid);
    } else {
      assert st.entries[u].lowlink <= st.entries[w].index;
      assert w in p;
    }
  }

  lemma PopLinks(adj: Adjacency, reach: set<nat>, st: State, base: nat, active: set<nat>)
    requires RootAt(adj, st, base, active) && EntriesOk(adj, reach, st)
    requires LinksOk(adj, st) && FinishedOk(adj, st, active)
    ensures LinksOk(adj, Popped(st, base))
  {
    var st' := Popped(st, base);
    forall l | l in st'.links
      ensures l in Cross(adj, st'.entries) && l.1 < l.0
    {
      if l in st.links {
        PopOldLink(adj, reach, st, base, l);
      } else {
        PopNewLink(adj, reach, st, base, active, l);
      }
    }
  }

  lemma PopOldLink(adj: Adjacency, reach: set<nat>, st: State, base: nat, l: (int, int))
    requires base <= |st.stack| && EntriesOk(adj, reach, st)
    requires l in Cross(adj, st.entries)
    ensures l in Cross(adj, Popped(st, base).entries)
  {
    var st' := Popped(st, base);
    var u, w :| u in st.entries && u < |adj| && w in adj[u] && w in st.entries
                && st.entries[u].component >= 0 && st.entries[w].component >= 0
                && st.entries[u].component != st.entries[w].component
                && l == (st.entries[u].component, st.entries[w].component);
    assert u !in st.stack[base..] && w !in st.stack[base..];
    assert st'.entries[u] == st.entries[u] && st'.entries[w] == st.entries[w];
    InCross(adj, st'.entries, u, w);
  }

  lemma PopNewLink(adj: Adjacency, reach: set<nat>, st: State, base: nat, active: set<nat>, l: (int, int))
    requires RootAt(adj, st, base, active) && EntriesOk(adj, reach, st) && FinishedOk(adj, st, active)
    requires l in NewLinks(st.entries, st.stack[base..], |st.components|)
    ensures l in Cross(adj, Popped(st, base).entries) && l.1 < l.0
  {
    var st' := Popped(st, base);
    var p := st.stack[base..];
    var cid := |st.components|;
    var u, x :| u in p && u in st.entries && x in st.entries[u].pending && l == (cid, x);
    var j :| 0 <= j < |p| && p[j] == u;
    assert st.stack[base + j] == u;
    assert x in SuccComps(adj, st.entries, u);
    var w :| w in adj[u] && w in st.entries && st.entries[w].component >= 0 && st.entries[w].component == x;
    assert w !in p;
    assert st'.entries[u].component == cid && st'.entries[w].component == x;
    InCross(adj, st'.entries, u, w);
  }

  lemma PopFinished(adj: Adjacency, reach: set<nat>, st: State, base: nat, active: set<nat>)
    requires RootAt(adj, st, base, active) && EntriesOk(adj, reach, st) && FinishedOk(adj, st, active)
    ensures FinishedOk(adj, Popped(st, base), active)
  {
    StackSplit(st, base);
    var st' := Popped(st, base);
    var p := st.stack[base..];
    forall u | u in st'.stack && u !in active
      ensures u in st'.entries && u < |adj| && EdgesDone(adj, st', u, |adj[u]|)
    {
      assert u in st.stack && u !in p;
      assert st'.entries[u] == st.entries[u];
      forall k | 0 <= k < |adj[u]|
        ensures adj[u][k] in st'.entries
          && ((st'.entries[adj[u][k]].component >= 0 && st'.entries[adj[u][k]].component in st'.entries[u].pending)
              || (adj[u][k] in st'.stack && st'.entries[u].lowlink <= st'.entries[adj[u][k]].index))
      {
        var w := adj[u][k];
        if w in st.stack {
          assert w in st.stack[..base];
        }
        assert w !in p;
      }
      forall x | x in st'.entries[u].pending
        ensures x in SuccComps(adj, st'.entries, u)
      {
        assert x in SuccComps(adj, st.entries, u);
        var w :| w in adj[u] && w in st.entries && st.entries[w].component >= 0 && st.entries[w].component == x;
        assert w !in p;
      }
    }
  }

  /** Popping the component of a root keeps the invariant. */
  lemma PopSound(adj: Adjacency, reach: set<nat>, st: State, base: nat, active: set<nat>)
    requires Inv(adj, reach, st, active) && RootAt(adj, st, base, active)
    ensures Inv(adj, reach, Popped(st, base), active)
  {
    PopStack(st, base);
    PopEntries(adj, reach, st, base);
    PopComponents(st, base);
    PopAssigned(adj, reach, st, base, active);
    PopLinks(adj, reach, st, base, active);
    PopFinished(adj, reach, st, base, active);
  }

  /** Pushing `v` gives the frame of its call. */
  lemma PushShape(st: State, v: nat)
    requires v !in st.entries
    ensures Shape(st, Push(st, v), v)
  {
    assert Push(st, v).stack[..|st.stack|] == st.stack;
  }

  /** Once all of `v`'s edges are processed, `v` counts as returned. */
  lemma DoneFinished(adj: Adjacency, reach: set<nat>, st: State, v: nat, active: set<nat>)
    requires v < |adj| && v in st.entries && Inv(adj, reach, st, active + {v})
    requires EdgesDone(adj, st, v, |adj[v]|)
    ensures Inv(adj, reach, st, active)
  {
  }

  /** Visiting a new node leaves fewer unvisited nodes. */
  lemma Shrinks(adj: Adjacency, st: State, cur: State, v: nat)
    requires st.entries.Keys <= cur.entries.Keys && v in cur.entries && v !in st.entries
    requires forall u :: u in cur.entries ==> u < |adj|
    ensures Nodes(|adj|) - cur.entries.Keys < Nodes(|adj|) - st.entries.Keys
  {
    assert v in Nodes(|adj|) - st.entries.Keys;
  }

  /**
   * A returned node below the frame of a call has, by `FinishedOk` before
   * the call, no edge to a node pushed during it.
   */
  lemma RootBelow(adj: Adjacency, reach: set<nat>, st: State, cur: State, active: set<nat>)
    requires FinishedOk(adj, st, active) && EntriesOk(adj, reach, cur) && Extends(st, cur)
    requires |cur.stack| >= |st.stack| && cur.stack[..|st.stack|] == st.stack
    ensures forall u, w :: u in cur.stack[..|st.stack|] && u !in active && u < |adj| && w in adj[u] && w in cur.stack ==>
              w in cur.stack[..|st.stack|]
  {
    forall u, w | u in cur.stack[..|st.stack|] && u !in active && u < |adj| && w in adj[u] && w in cur.stack
      ensures w in cur.stack[..|st.stack|]
    {
      assert EdgesDone(adj, st, u, |adj[u]|);
      var k :| 0 <= k < |adj[u]| && adj[u][k] == w;
      assert w in st.entries;
      assert cur.entries[w] == st.entries[w];
    }
  }

  /** A node whose lowlink equals its index at the end of its call is the root of a component. */
  lemma MakeRoot(adj: Adjacency, reach: set<nat>, st: State, cur: State, v: nat, active: set<nat>)
    requires FinishedOk(adj, st, active) && active <= st.entries.Keys
    requires Inv(adj, reach, cur, active) && Shape(st, cur, v)
    requires cur.entries[v].lowlink == cur.entries[v].index
    ensures RootAt(adj, cur, |st.stack|, active)
  {
    RootBelow(adj, reach, st, cur, active);
  }

  /** Popping the component of the call's root only changes entries created during the call. */
  lemma PopExtends(st: State, cur: State, v: nat)
    requires Shape(st, cur, v)
    ensures Extends(st, Popped(cur, |st.stack|))
    ensures Popped(cur, |st.stack|).stack == st.stack
    ensures v in Popped(cur, |st.stack|).entries
    ensures Popped(cur, |st.stack|).entries[v].index == cur.entries[v].index
    ensures Popped(cur, |st.stack|).entries[v].lowlink == cur.entries[v].lowlink
  {
    var p := cur.stack[|st.stack|..];
    forall u | u in st.entries
      ensures u !in p
    {
      forall i | 0 <= i < |p|
        ensures p[i] != u
      {
        assert p[i] == cur.stack[|st.stack| + i];
      }
    }
  }

  /**
   * What a call `strongconnect(v)` from state `st` promises of the state
   * `st'` it returns, besides the invariant: only entries were added, `v`
   * got `st`'s counter as index, and `v` stays on the stack exactly when its
   * lowlink ends below its index, with only nodes first visited in the
   * call, with lowlinks no smaller, above it.
   */
  ghost predicate Framed(st: State, st': State, v: nat)
  {
    Extends(st, st') && v in st'.entries && st'.entries[v].index == st.index
    && |st'.stack| >= |st.stack| && st'.stack[..|st.stack|] == st.stack
    && (forall i :: |st.stack| <= i < |st'.stack| ==>
          st'.stack[i] in st'.entries && st'.stack[i] !in st.entries
          && st'.entries[v].lowlink <= st'.entries[st'.stack[i]].lowlink)
    && (|st'.stack| > |st.stack| ==> st'.stack[|st.stack|] == v && st'.entries[v].lowlink < st'.entries[v].index)
    && (|st'.stack| == |st.stack| ==> st'.entries[v].lowlink == st'.entries[v].index)
  }

  /** The state a call `strongconnect(v)` returns, entered in `st` and with `cur` after the edges of `v`. */
  ghost function Ending(st: State, cur: State, v: nat): State
    requires |st.stack| <= |cur.stack| && v in cur.entries
  {
    if cur.entries[v].lowlink == cur.entries[v].index then Popped(cur, |st.stack|) else cur
  }

  /** The end of a call: a root pops its component, any other node stays on the stack. */
  lemma Finish(adj: Adjacency, reach: set<nat>, st: State, cur: State, v: nat, active: set<nat>)
    requires FinishedOk(adj, st, active) && active <= st.entries.Keys
    requires v < |adj| && Inv(adj, reach, cur, active + {v}) && Shape(st, cur, v) && EdgesDone(adj, cur, v, |adj[v]|)
    ensures Inv(adj, reach, Ending(st, cur, v), active) && Framed(st, Ending(st, cur, v), v)
    ensures cur.entries[v].lowlink == cur.entries[v].index ==>
              (|st.stack| < |cur.stack| && cur.stack[|st.stack|] == v
               && (forall i :: |st.stack| < i < |cur.stack| ==> cur.stack[i] != v)
               && forall i :: 0 <= i < |cur.stack| ==> cur.stack[i] in cur.entries)
  {
    DoneFinished(adj, reach, cur, v, active);
    if cur.entries[v].lowlink == cur.entries[v].index {
      RootFinish(adj, reach, st, cur, v, active);
    } else {
      OpenFramed(adj, reach, st, cur, v, active);
    }
  }

  lemma RootFinish(adj: Adjacency, reach: set<nat>, st: State, cur: State, v: nat, active: set<nat>)
    requires FinishedOk(adj, st, active) && active <= st.entries.Keys
    requires Inv(adj, reach, cur, active) && Shape(st, cur, v) && cur.entries[v].lowlink == cur.entries[v].index
    ensures Inv(adj, reach, Popped(cur, |st.stack|), active) && Framed(st, Popped(cur, |st.stack|), v)
    ensures forall i :: |st.stack| < i < |cur.stack| ==> cur.stack[i] != v
  {
    MakeRoot(adj, reach, st, cur, v, active);
    PopSound(adj, reach, cur, |st.stack|, active);
    PopFramed(st, cur, v);
    StackSplit(cur, |st.stack|);
  }

  lemma PopFramed(st: State, cur: State, v: nat)
    requires Shape(st, cur, v) && cur.entries[v].lowlink == cur.entries[v].index
    ensures Framed(st, Popped(cur, |st.stack|), v)
  {
    PopExtends(st, cur, v);
  }

  lemma OpenFramed(adj: Adjacency, reach: set<nat>, st: State, cur: State, v: nat, active: set<nat>)
    requires LowOk(cur) && Shape(st, cur, v)
    requires cur.entries[v].lowlink != cur.entries[v].index
    ensures Framed(st, cur, v)
  {
    assert v in cur.stack by {
      assert cur.stack[|st.stack|] == v;
    }
  }

  /**
   * `strongconnect(v)`: gives `v` the next index, pushes it, processes its
   * edges in order and, if `v` turns out to be a root, pops its component.
   */
  method StrongConnect(adj: Adjacency, ghost reach: set<nat>, v: nat, st: State, ghost active: set<nat>)
    returns (st': State)
    requires Closed(adj) && ReachClosed(adj, reach)
    requires Inv(adj, reach, st, active) && active <= st.entries.Keys
    requires v < |adj| && v !in st.entries && v in reach
    requires Strong(adj, st, active) && BelowActive(adj, active, v)
    ensures Inv(adj, reach, st', active) && Framed(st, st', v)
    ensures Strong(adj, st', active) && NewFrom(adj, st, st', v)
    decreases Nodes(|adj|) - st.entries.Keys, 2
  {
    var cur := VisitEdges(adj, reach, v, st, active);
    Finish(adj, reach, st, cur, v, active);
    FinishStrong(adj, reach, st, cur, v, active);
    if cur.entries[v].lowlink == cur.entries[v].index {
      st' := PopComponent(cur, v, |st.stack|);
    } else {
      st' := cur;
    }
  }

  /**
   * The part of `strongconnect(v)` before the root test: `v` is pushed
   * with the next index as index and lowlink, and `process_neighbors(v, ...)`
   * runs the callback on each edge of `v` in order.
   */
  method VisitEdges(adj: Adjacency, ghost reach: set<nat>, v: nat, st: State, ghost active: set<nat>)
    returns (cur: State)
    requires Closed(adj) && ReachClosed(adj, reach)
    requires Inv(adj, reach, st, active) && active <= st.entries.Keys
    requires v < |adj| && v !in st.entries && v in reach
    requires Strong(adj, st, active) && BelowActive(adj, active, v)
    ensures Inv(adj, reach, cur, active + {v}) && Shape(st, cur, v) && EdgesDone(adj, cur, v, |adj[v]|)
    ensures Strong(adj, cur, active + {v}) && NewFrom(adj, st, cur, v)
    decreases Nodes(|adj|) - st.entries.Keys, 1
  {
    PushOk(adj, reach, st, v, active);
    PushStrong(adj, st, v, active);
    PushShape(st, v);
    cur := Push(st, v);
    Shrinks(adj, st, cur, v);
    cur := ProcessEdges(adj, reach, v, st, cur, active);
  }

  /** The loop of `process_neighbors(v, ...)`: the callback runs on each edge of `v` in order. */
  method ProcessEdges(adj: Adjacency, ghost reach: set<nat>, v: nat, ghost st: State, pushed: State, ghost active: set<nat>)
    returns (cur: State)
    requires Closed(adj) && ReachClosed(adj, reach)
    requires v < |adj| && active <= st.entries.Keys
    requires Nodes(|adj|) - pushed.entries.Keys < Nodes(|adj|) - st.entries.Keys
    requires Inv(adj, reach, pushed, active + {v}) && Shape(st, pushed, v) && EdgesDone(adj, pushed, v, 0)
    requires Strong(adj, pushed, active + {v}) && NewFrom(adj, st, pushed, v) && BelowActive(adj, active, v)
    ensures Inv(adj, reach, cur, active + {v}) && Shape(st, cur, v) && EdgesDone(adj, cur, v, |adj[v]|)
    ensures Strong(adj, cur, active + {v}) && NewFrom(adj, st, cur, v)
    decreases Nodes(|adj|) - st.entries.Keys, 0
  {
    cur := pushed;
    var j := 0;
    while j < |adj[v]|
      invariant j <= |adj[v]| && Nodes(|adj|) - cur.entries.Keys < Nodes(|adj|) - st.entries.Keys
      invariant Inv(adj, reach, cur, active + {v}) && Shape(st, cur, v) && EdgesDone(adj, cur, v, j)
      invariant Strong(adj, cur, active + {v}) && NewFrom(adj, st, cur, v)
    {
      var next := EdgeStep(adj, reach, v, j, cur, st, active);
      SubsetDiff(Nodes(|adj|), st.entries.Keys, cur.entries.Keys, next.entries.Keys);
      cur := next;
      j := j + 1;
    }
  }

  lemma SubsetDiff(n: set<nat>, a: set<nat>, b: set<nat>, c: set<nat>)
    requires n - b < n - a && b <= c
    ensures n - c < n - a
  {
  }

  /**
   * The callback `strongconnect(v)` passes to `process_neighbors`, for the
   * `j`-th edge of `v`, to `w`: an unvisited `w` is searched and `v`'s
   * lowlink lowered to `w`'s; a `w` on the stack lowers it to `w`'s index;
   * and the id of a completed `w` is added to `v`'s pending ids. `low` is
   * the candidate lowlink, `v`'s own when `w` was completed before.
   */
  method EdgeStep(adj: Adjacency, ghost reach: set<nat>, v: nat, j: nat, st: State, ghost st0: State, ghost active: set<nat>)
    returns (st': State)
    requires Closed(adj) && ReachClosed(adj, reach)
    requires v < |adj| && j < |adj[v]|
    requires Inv(adj, reach, st, active + {v}) && active <= st0.entries.Keys
    requires Shape(st0, st, v) && EdgesDone(adj, st, v, j)
    requires Strong(adj, st, active + {v}) && NewFrom(adj, st0, st, v) && BelowActive(adj, active, v)
    ensures Inv(adj, reach, st', active + {v}) && Shape(st0, st', v) && EdgesDone(adj, st', v, j + 1)
    ensures Strong(adj, st', active + {v}) && NewFrom(adj, st0, st', v)
    ensures st.entries.Keys <= st'.entries.Keys
    decreases Nodes(|adj|) - st.entries.Keys, 3
  {
    var w := adj[v][j];
    if w !in st.entries {
      ChildReachable(adj, reach, st0, st, v, w, active);
      ChildBelow(adj, active, v, w);
      var st1 := StrongConnect(adj, reach, w, st, active + {v});
      ChildRelax(adj, reach, st0, st, st1, v, j, active);
      ChildStrong(adj, reach, st0, st, st1, v, j, active);
      st' := SetEntry(st1, v, Relaxed(st1.entries[v], st1.entries[w].lowlink, st1.entries[w]));
    } else {
      var low := if st.entries[w].component == -1 then st.entries[w].index else st.entries[v].lowlink;
      SeenRelax(adj, reach, st0, st, v, j, active);
      SeenStrong(adj, reach, st0, st, v, j, active);
      st' := SetEntry(st, v, Relaxed(st.entries[v], low, st.entries[w]));
    }
  }

  /** The unvisited end of an edge from `v` may be searched from within `v`'s call. */
  lemma ChildReachable(adj: Adjacency, reach: set<nat>, st0: State, st: State, v: nat, w: nat, active: set<nat>)
    requires Closed(adj) && ReachClosed(adj, reach) && v < |adj| && w in adj[v]
    requires EntriesOk(adj, reach, st) && active <= st0.entries.Keys && Shape(st0, st, v)
    ensures w < |adj| && w in reach && active + {v} <= st.entries.Keys
  {
  }

  /** Relaxing `v` after searching its edge to the unvisited `w`, which returned `st1`. */
  lemma ChildRelax(adj: Adjacency, reach: set<nat>, st0: State, st: State, st1: State, v: nat, j: nat, active: set<nat>)
    requires v < |adj| && j < |adj[v]| && adj[v][j] !in st.entries
    requires Shape(st0, st, v) && EdgesDone(adj, st, v, j)
    requires Inv(adj, reach, st1, active + {v}) && Framed(st, st1, adj[v][j])
    ensures var e := Relaxed(st1.entries[v], st1.entries[adj[v][j]].lowlink, st1.entries[adj[v][j]]);
      Inv(adj, reach, SetEntry(st1, v, e), active + {v}) && Shape(st0, SetEntry(st1, v, e), v)
      && EdgesDone(adj, SetEntry(st1, v, e), v, j + 1) && st.entries.Keys <= SetEntry(st1, v, e).entries.Keys
  {
    var w := adj[v][j];
    if |st1.stack| == |st.stack| {
      assert st1.stack == st.stack;
      assert w !in st1.stack;
    } else {
      assert w in st1.stack;
    }
    RelaxOk(adj, reach, st0, st, st1, v, j, st1.entries[w].lowlink, active);
  }

  /** Relaxing `v` after its edge to the visited `w`. */
  lemma SeenRelax(adj: Adjacency, reach: set<nat>, st0: State, st: State, v: nat, j: nat, active: set<nat>)
    requires v < |adj| && j < |adj[v]| && adj[v][j] in st.entries
    requires Inv(adj, reach, st, active + {v}) && Shape(st0, st, v) && EdgesDone(adj, st, v, j)
    ensures var w := adj[v][j];
      var low := if st.entries[w].component == -1 then st.entries[w].index else st.entries[v].lowlink;
      var e := Relaxed(st.entries[v], low, st.entries[w]);
      Inv(adj, reach, SetEntry(st, v, e), active + {v}) && Shape(st0, SetEntry(st, v, e), v)
      && EdgesDone(adj, SetEntry(st, v, e), v, j + 1) && st.entries.Keys <= SetEntry(st, v, e).entries.Keys
  {
    var w := adj[v][j];
    var low := if st.entries[w].component == -1 then st.entries[w].index else st.entries[v].lowlink;
    assert v in st.stack by {
      assert st.stack[|st0.stack|] == v;
    }
    RelaxOk(adj, reach, st0, st, st, v, j, low, active);
  }

  /** The bottom node of the stack has a lowlink no smaller than its index. */
  lemma LowBottom(st: State)
    requires LowOk(st)
    ensures |st.stack| > 0 ==> st.entries[st.stack[0]].index <= st.entries[st.stack[0]].lowlink
  {
    if |st.stack| > 0 {
      assert st.stack[0] in st.stack;
    }
  }

  /** A call from an empty stack leaves the stack empty: its node is a root. */
  lemma EmptyStack(st: State, st': State, v: nat)
    requires st.stack == [] && LowOk(st') && Framed(st, st', v)
    ensures st'.stack == []
  {
    LowBottom(st');
  }

  /** The state before any call. */
  function Start(): State
  {
    State(0, [], [], map[], {})
  }

  lemma StartOk(adj: Adjacency, reach: set<nat>)
    ensures Inv(adj, reach, Start(), {})
  {
  }

  /**
   * Once every source is visited and the stack is empty, the visited nodes
   * are exactly the reachable ones: every visited node is completed, so its
   * successors are visited too.
   */
  lemma AllVisited(adj: Adjacency, sources: set<nat>, st: State)
    requires Inv(adj, Reachable(adj, sources), st, {}) && st.stack == [] && sources <= st.entries.Keys
    ensures st.entries.Keys == Reachable(adj, sources)
  {
    forall w | w in Succ(adj, st.entries.Keys)
      ensures w in st.entries
    {
      var u :| u in st.entries.Keys && u < |adj| && w in adj[u];
      assert st.entries[u].component >= 0;
    }
    ClosedHoldsWithin(adj, sources, st.entries.Keys, |adj|);
  }

  /** The nodes reachable from the sources are closed under successors and include the sources. */
  lemma ReachFacts(adj: Adjacency, sources: set<nat>)
    requires Closed(adj) && InGraph(adj, sources)
    ensures ReachClosed(adj, Reachable(adj, sources)) && sources <= Reachable(adj, sources)
  {
    forall u, w | u in Reachable(adj, sources) && u < |adj| && w in adj[u]
      ensures w in Reachable(adj, sources)
    {
      ReachableClosed(adj, sources, u, w);
    }
    WithinMono(adj, sources, 0, |adj|);
  }

  /**
   * The search of `tarjan_scc`: `strongconnect` runs from each source not
   * visited yet. Every reachable node ends up in exactly one completed
   * component.
   */
  method SearchAll(adj: Adjacency, sources: seq<nat>) returns (st: State)
    requires Closed(adj) && forall i :: 0 <= i < |sources| ==> sources[i] < |adj|
    ensures Inv(adj, Reachable(adj, Elems(sources)), st, {}) && st.stack == []
    ensures st.entries.Keys == Reachable(adj, Elems(sources))
    ensures ComponentsStrong(adj, st.components)
  {
    ghost var reach := Reachable(adj, Elems(sources));
    ReachFacts(adj, Elems(sources));
    assert forall i :: 0 <= i < |sources| ==> sources[i] in Elems(sources);
    st := VisitSources(adj, reach, sources);
    assert Elems(sources) <= st.entries.Keys;
    AllVisited(adj, Elems(sources), st);
  }

  /**
   * The loop over the sources in `tarjan_scc`, within a set of nodes closed
   * under successors: afterwards every source has been visited and no
   * search is in progress.
   */
  method VisitSources(adj: Adjacency, ghost reach: set<nat>, sources: seq<nat>) returns (st: State)
    requires Closed(adj) && ReachClosed(adj, reach)
    requires forall i :: 0 <= i < |sources| ==> sources[i] < |adj| && sources[i] in reach
    ensures Inv(adj, reach, st, {}) && st.stack == []
    ensures forall i :: 0 <= i < |sources| ==> sources[i] in st.entries.Keys
    ensures Strong(adj, st, {})
  {
    StartOk(adj, reach);
    StartStrong(adj);
    st := Start();
    for k := 0 to |sources|
      invariant Inv(adj, reach, st, {}) && st.stack == [] && Strong(adj, st, {})
      invariant forall i :: 0 <= i < k ==> sources[i] in st.entries.Keys
    {
      var next := VisitSource(adj, reach, sources[k], st);
      SourcesKept(sources, k, st.entries.Keys, next.entries.Keys);
      st := next;
    }
  }

  /** The sources visited so far stay visited when the search only adds nodes. */
  lemma SourcesKept(sources: seq<nat>, k: nat, before: set<nat>, after: set<nat>)
    requires k < |sources| && before <= after && sources[k] in after
    requires forall i :: 0 <= i < k ==> sources[i] in before
    ensures forall i :: 0 <= i < k + 1 ==> sources[i] in after
  {
  }

  /** One turn of the loop over the sources: a source not visited yet is searched from. */
  method VisitSource(adj: Adjacency, ghost reach: set<nat>, source: nat, st: State) returns (st': State)
    requires Closed(adj) && ReachClosed(adj, reach) && source < |adj| && source in reach
    requires Inv(adj, reach, st, {}) && st.stack == [] && Strong(adj, st, {})
    ensures Inv(adj, reach, st', {}) && st'.stack == [] && Strong(adj, st', {})
    ensures source in st'.entries && st.entries.Keys <= st'.entries.Keys
  {
    if source in st.entries {
      st' := st;
    } else {
      st' := StrongConnect(adj, reach, source, st, {});
      EmptyStack(st, st', source);
    }
  }

  /** `comps` lists every node of `nodes` exactly once, and nothing else. */
  ghost predicate Partitions(comps: seq<seq<nat>>, nodes: set<nat>)
  {
    (forall u :: u in nodes <==> exists c :: 0 <= c < |comps| && u in comps[c])
    && forall c, d, i, j ::
         (0 <= c < |comps| && 0 <= d < |comps| && 0 <= i < |comps[c]| && 0 <= j < |comps[d]| && comps[c][i] == comps[d][j])
         ==> c == d && i == j
  }

  /** No edge leads from a component to one listed before it. */
  ghost predicate EdgesForward(adj: Adjacency, comps: seq<seq<nat>>)
  {
    forall c, d, u, w ::
      (0 <= c < |comps| && 0 <= d < |comps| && u in comps[c] && u < |adj| && w in adj[u] && w in comps[d]) ==> c <= d
  }

  /** The pairs of distinct components joined by an edge. */
  ghost function ComponentEdges(adj: Adjacency, comps: seq<seq<nat>>): set<(int, int)>
  {
    set c, d, u, w | 0 <= c < |comps| && 0 <= d < |comps| && c != d && u in comps[c] && u < |adj| && w in adj[u] && w in comps[d]
      :: (c, d)
  }

  /** Component ids mirrored, as the reversal of the components list renumbers them. */
  function Mirrored(links: set<(int, int)>, n: int): set<(int, int)>
  {
    set l | l in links :: (n - 1 - l.0, n - 1 - l.1)
  }

  /** The loop filling `reversed_links`. */
  method MirrorLinks(links: set<(int, int)>, n: int) returns (r: set<(int, int)>)
    ensures r == Mirrored(links, n)
  {
    r := {};
    var rest := links;
    while rest != {}
      invariant rest <= links && r == Mirrored(links - rest, n)
      decreases rest
    {
      var l :| l in rest;
      r := r + {(n - 1 - l.0, n - 1 - l.1)};
      rest := rest - {l};
    }
  }

  /**
   * `tarjan_scc(sources, process_neighbors)`: the strongly connected
   * components of the part of the graph reachable from the sources, in an
   * order where every edge between components points forwards, with the set
   * of pairs of components joined by an edge.
   */
  method Tarjan(adj: Adjacency, sources: seq<nat>) returns (components: seq<seq<nat>>, links: set<(int, int)>)
    requires Closed(adj) && forall i :: 0 <= i < |sources| ==> sources[i] < |adj|
    ensures Partitions(components, Reachable(adj, Elems(sources)))
    ensures EdgesForward(adj, components)
    ensures links == ComponentEdges(adj, components)
    ensures forall l :: l in links ==> l.0 < l.1
    ensures forall c, u, w :: 0 <= c < |components| && u in components[c] && w in components[c] ==> w in Reachable(adj, {u})
    ensures forall c, d, u, w ::
      (0 <= c < |components| && 0 <= d < |components| && u in components[c] && w in components[d]
       && w in Reachable(adj, {u}) && u in Reachable(adj, {w})) ==> c == d
  {
    var st := SearchAll(adj, sources);
    FinalPartition(adj, Reachable(adj, Elems(sources)), st);
    FinalOrder(adj, st);
    FinalLinks(adj, Reachable(adj, Elems(sources)), st);
    components := Reverse(st.components);
    links := MirrorLinks(st.links, |st.components|);
    ReversedPartition(st.components, components, Reachable(adj, Elems(sources)));
    ReversedOrder(adj, st.components, components);
    ReversedLinks(adj, st.components, components, st.links);
    ReversedStrong(adj, st.components, components);
    StrongReachable(adj, components);
    ReachFacts(adj, Elems(sources));
    Maximal(adj, components, Reachable(adj, Elems(sources)));
  }

  /** A node listed in component `c` has id `c`. */
  lemma MemberId(st: State, c: int, u: nat)
    requires ComponentsOk(st) && 0 <= c < |st.components| && u in st.components[c]
    ensures u in st.entries && st.entries[u].component == c
  {
    var i :| 0 <= i < |st.components[c]| && st.components[c][i] == u;
  }

  /** At the end, the completed components partition the reachable nodes. */
  lemma FinalPartition(adj: Adjacency, reach: set<nat>, st: State)
    requires EntriesOk(adj, reach, st) && ComponentsOk(st) && st.stack == [] && st.entries.Keys == reach
    ensures Partitions(st.components, reach)
  {
    forall u | u in reach
      ensures exists c :: 0 <= c < |st.components| && u in st.components[c]
    {
      var c := st.entries[u].component;
      assert 0 <= c < |st.components| && u in st.components[c];
    }
    forall u, c | 0 <= c < |st.components| && u in st.components[c]
      ensures u in reach
    {
      MemberId(st, c, u);
    }
    forall c, d, i, j | 0 <= c < |st.components| && 0 <= d < |st.components| && 0 <= i < |st.components[c]|
        && 0 <= j < |st.components[d]| && st.components[c][i] == st.components[d][j]
      ensures c == d && i == j
    {
      MemberId(st, c, st.components[c][i]);
      MemberId(st, d, st.components[d][j]);
    }
  }

  /** Every edge leads to a component completed no later: `comps` lists components in reverse topological order. */
  ghost predicate EdgesBackward(adj: Adjacency, comps: seq<seq<nat>>)
  {
    forall c, d, u, w ::
      (0 <= c < |comps| && 0 <= d < |comps| && u in comps[c] && u < |adj| && w in adj[u] && w in comps[d]) ==> d <= c
  }

  /** At the end, every edge leads to a component completed no later. */
  lemma FinalOrder(adj: Adjacency, st: State)
    requires ComponentsOk(st) && AssignedClosed(adj, st)
    ensures EdgesBackward(adj, st.components)
  {
    forall c, d, u, w | 0 <= c < |st.components| && 0 <= d < |st.components| && u in st.components[c] && u < |adj|
        && w in adj[u] && w in st.components[d]
      ensures d <= c
    {
      MemberId(st, c, u);
      MemberId(st, d, w);
    }
  }

  /** At the end, the links are exactly the pairs of distinct components joined by an edge, the later one first. */
  lemma FinalLinks(adj: Adjacency, reach: set<nat>, st: State)
    requires EntriesOk(adj, reach, st) && ComponentsOk(st) && AssignedClosed(adj, st) && LinksOk(adj, st)
    ensures st.links == ComponentEdges(adj, st.components)
    ensures forall l :: l in st.links ==> l.1 < l.0
  {
    forall l | l in st.links
      ensures l in ComponentEdges(adj, st.components)
    {
      LinkEdge(adj, reach, st, l);
    }
    forall l | l in ComponentEdges(adj, st.components)
      ensures l in st.links
    {
      EdgeLink(adj, reach, st, l);
    }
  }

  lemma EdgeLink(adj: Adjacency, reach: set<nat>, st: State, l: (int, int))
    requires EntriesOk(adj, reach, st) && ComponentsOk(st) && AssignedClosed(adj, st)
    requires l in ComponentEdges(adj, st.components)
    ensures l in st.links
  {
    var c, d, u, w :| 0 <= c < |st.components| && 0 <= d < |st.components| && c != d && u in st.components[c]
                      && u < |adj| && w in adj[u] && w in st.components[d] && l == (c, d);
    MemberId(st, c, u);
    MemberId(st, d, w);
  }

  lemma LinkEdge(adj: Adjacency, reach: set<nat>, st: State, l: (int, int))
    requires EntriesOk(adj, reach, st) && ComponentsOk(st) && l in Cross(adj, st.entries)
    ensures l in ComponentEdges(adj, st.components)
  {
    var u, w :| u in st.entries && u < |adj| && w in adj[u] && w in st.entries
                && st.entries[u].component >= 0 && st.entries[w].component >= 0
                && st.entries[u].component != st.entries[w].component
                && l == (st.entries[u].component, st.entries[w].component);
    var c, d := st.entries[u].component, st.entries[w].component;
    assert u in st.components[c] && w in st.components[d];
    InComponentEdges(adj, st.components, c, d, u, w);
  }

  lemma InComponentEdges(adj: Adjacency, comps: seq<seq<nat>>, c: int, d: int, u: nat, w: nat)
    requires 0 <= c < |comps| && 0 <= d < |comps| && c != d && u in comps[c] && u < |adj| && w in adj[u] && w in comps[d]
    ensures (c, d) in ComponentEdges(adj, comps)
  {
  }

  /** `r` is `comps` reversed, as `std::ranges::reverse` leaves it. */
  predicate Reversal(r: seq<seq<nat>>, comps: seq<seq<nat>>)
  {
    |r| == |comps| && forall i :: 0 <= i < |r| ==> r[i] == comps[|comps| - 1 - i]
  }

  /** Reversing a partition leaves a partition. */
  lemma ReversedPartition(comps: seq<seq<nat>>, r: seq<seq<nat>>, reach: set<nat>)
    requires Reversal(r, comps) && Partitions(comps, reach)
    ensures Partitions(r, reach)
  {
    var n := |comps|;
    forall u | u in reach
      ensures exists c :: 0 <= c < n && u in r[c]
    {
      var c :| 0 <= c < n && u in comps[c];
      assert r[n - 1 - c] == comps[c];
    }
    forall c, d, i, j | 0 <= c < n && 0 <= d < n && 0 <= i < |r[c]| && 0 <= j < |r[d]| && r[c][i] == r[d][j]
      ensures c == d && i == j
    {
      assert r[c] == comps[n - 1 - c] && r[d] == comps[n - 1 - d];
    }
  }

  /** Reversing the list turns edges that point backwards into edges that point forwards. */
  lemma ReversedOrder(adj: Adjacency, comps: seq<seq<nat>>, r: seq<seq<nat>>)
    requires Reversal(r, comps) && EdgesBackward(adj, comps)
    ensures EdgesForward(adj, r)
  {
    var n := |comps|;
    forall c, d, u, w | 0 <= c < n && 0 <= d < n && u in r[c] && u < |adj| && w in adj[u] && w in r[d]
      ensures c <= d
    {
      assert r[c] == comps[n - 1 - c] && r[d] == comps[n - 1 - d];
    }
  }

  /** Mirroring the links of a list gives the links of the reversed list. */
  lemma ReversedLinks(adj: Adjacency, comps: seq<seq<nat>>, r: seq<seq<nat>>, links: set<(int, int)>)
    requires Reversal(r, comps) && links == ComponentEdges(adj, comps) && forall l :: l in links ==> l.1 < l.0
    ensures Mirrored(links, |comps|) == ComponentEdges(adj, r)
    ensures forall l :: l in Mirrored(links, |comps|) ==> l.0 < l.1
  {
    MirroredLinksAreEdges(adj, comps, r, links);
    EdgesAreMirroredLinks(adj, comps, r, links);
  }

  /** Every mirrored link joins two components of the reversed list, the earlier to the later. */
  lemma MirroredLinksAreEdges(adj: Adjacency, comps: seq<seq<nat>>, r: seq<seq<nat>>, links: set<(int, int)>)
    requires Reversal(r, comps) && links == ComponentEdges(adj, comps) && forall l :: l in links ==> l.1 < l.0
    ensures forall l :: l in Mirrored(links, |comps|) ==> l in ComponentEdges(adj, r) && l.0 < l.1
  {
    forall l | l in Mirrored(links, |comps|)
      ensures l in ComponentEdges(adj, r) && l.0 < l.1
    {
      var k :| k in links && l == (|comps| - 1 - k.0, |comps| - 1 - k.1);
      MirrorEdge(adj, comps, r, k);
    }
  }

  /** Every pair of components of the reversed list joined by an edge is a mirrored link. */
  lemma EdgesAreMirroredLinks(adj: Adjacency, comps: seq<seq<nat>>, r: seq<seq<nat>>, links: set<(int, int)>)
    requires Reversal(r, comps) && links == ComponentEdges(adj, comps)
    ensures forall l :: l in ComponentEdges(adj, r) ==> l in Mirrored(links, |comps|)
  {
    forall l | l in ComponentEdges(adj, r)
      ensures l in Mirrored(links, |comps|)
    {
      UnmirrorEdge(adj, comps, r, l);
      var k := (|comps| - 1 - l.0, |comps| - 1 - l.1);
      assert k in links && l == (|comps| - 1 - k.0, |comps| - 1 - k.1);
    }
  }

  lemma MirrorEdge(adj: Adjacency, comps: seq<seq<nat>>, r: seq<seq<nat>>, k: (int, int))
    requires Reversal(r, comps) && k in ComponentEdges(adj, comps)
    ensures (|comps| - 1 - k.0, |comps| - 1 - k.1) in ComponentEdges(adj, r)
  {
    var n := |comps|;
    var c, d, u, w :| 0 <= c < n && 0 <= d < n && c != d && u in comps[c]
                      && u < |adj| && w in adj[u] && w in comps[d] && k == (c, d);
    assert r[n - 1 - c] == comps[c] && r[n - 1 - d] == comps[d];
    InComponentEdges(adj, r, n - 1 - c, n - 1 - d, u, w);
  }

  lemma UnmirrorEdge(adj: Adjacency, comps: seq<seq<nat>>, r: seq<seq<nat>>, l: (int, int))
    requires Reversal(r, comps) && l in ComponentEdges(adj, r)
    ensures (|comps| - 1 - l.0, |comps| - 1 - l.1) in ComponentEdges(adj, comps)
  {
    var n := |comps|;
    var c, d, u, w :| 0 <= c < n && 0 <= d < n && c != d && u in r[c]
                      && u < |adj| && w in adj[u] && w in r[d] && l == (c, d);
    assert r[c] == comps[n - 1 - c] && r[d] == comps[n - 1 - d];
    InComponentEdges(adj, comps, n - 1 - c, n - 1 - d, u, w);
  }

  /** A walk that starts inside a successor-closed set stays inside it. */
  lemma {:induction false} WalkInside(adj: Adjacency, reach: set<nat>, p: seq<nat>)
    requires ReachClosed(adj, reach) && Walk(adj, p) && p[0] in reach
    ensures forall i :: 0 <= i < |p| ==> p[i] in reach
    decreases |p|
  {
    if |p| > 1 {
      assert Walk(adj, p[..|p| - 1]);
      WalkInside(adj, reach, p[..|p| - 1]);
      assert p[|p| - 2] == p[..|p| - 1][|p| - 2];
    }
  }

  /** Along a walk through listed nodes, the component index never goes down. */
  lemma {:induction false} WalkForward(adj: Adjacency, comps: seq<seq<nat>>, nodes: set<nat>, p: seq<nat>, c: int, d: int)
    requires Partitions(comps, nodes) && EdgesForward(adj, comps)
    requires Walk(adj, p) && forall i :: 0 <= i < |p| ==> p[i] in nodes
    requires 0 <= c < |comps| && p[0] in comps[c] && 0 <= d < |comps| && p[|p| - 1] in comps[d]
    ensures c <= d
    decreases |p|
  {
    if |p| == 1 {
      var i :| 0 <= i < |comps[c]| && comps[c][i] == p[0];
      var j :| 0 <= j < |comps[d]| && comps[d][j] == p[0];
    } else {
      assert p[1] in nodes;
      var e :| 0 <= e < |comps| && p[1] in comps[e];
      assert Walk(adj, p[1..]);
      WalkForward(adj, comps, nodes, p[1..], e, d);
    }
  }

  /**
   * Nodes reachable from each other lie in the same component of the
   * result: a walk from one to the other and one back both keep or raise
   * the component index.
   */
  lemma MutuallyReachable(adj: Adjacency, sources: seq<nat>, comps: seq<seq<nat>>, p: seq<nat>, q: seq<nat>, c: int, d: int)
    requires Closed(adj) && forall i :: 0 <= i < |sources| ==> sources[i] < |adj|
    requires Partitions(comps, Reachable(adj, Elems(sources))) && EdgesForward(adj, comps)
    requires Walk(adj, p) && Walk(adj, q) && q[0] == p[|p| - 1] && q[|q| - 1] == p[0]
    requires 0 <= c < |comps| && p[0] in comps[c] && 0 <= d < |comps| && p[|p| - 1] in comps[d]
    ensures c == d
  {
    var reach := Reachable(adj, Elems(sources));
    ReachFacts(adj, Elems(sources));
    WalkInside(adj, reach, p);
    WalkInside(adj, reach, q);
    WalkForward(adj, comps, reach, p, c, d);
    WalkForward(adj, comps, reach, q, d, c);
  }

  /*
   * Strong connectivity. Besides `Inv`, the search keeps three facts about
   * reachability: every node on the stack reaches a running node whose
   * index is no larger than its own (`ReachesActive`); every node on the
   * stack reaches a node on the stack whose index is at most its lowlink
   * (`ReachesLow`); and the members of each completed component reach each
   * other (`ComponentsStrong`). A call `strongconnect(v)` is entered only
   * for a `v` reachable from every running node (`BelowActive`), and every
   * node it visits is reachable from `v` (`NewFrom`).
   */

  /** Some walk leads from `u` to `w`. */
  ghost predicate Reaches(adj: Adjacency, u: nat, w: nat)
  {
    exists p :: Walk(adj, p) && p[0] == u && p[|p| - 1] == w
  }

  /** `u` reaches itself. */
  lemma ReachSelf(adj: Adjacency, u: nat)
    requires u < |adj|
    ensures Reaches(adj, u, u)
  {
    assert Walk(adj, [u]);
  }

  /** `u` reaches the ends of its edges. */
  lemma ReachEdge(adj: Adjacency, u: nat, w: nat)
    requires Closed(adj) && u < |adj| && w in adj[u]
    ensures Reaches(adj, u, w)
  {
    assert Walk(adj, [u, w]);
  }

  /** Reachability is transitive: walks join end to end. */
  lemma ReachTrans(adj: Adjacency, u: nat, w: nat, x: nat)
    requires Reaches(adj, u, w) && Reaches(adj, w, x)
    ensures Reaches(adj, u, x)
  {
    var p :| Walk(adj, p) && p[0] == u && p[|p| - 1] == w;
    var q :| Walk(adj, q) && q[0] == w && q[|q| - 1] == x;
    var r := p + q[1..];
    forall i | 0 <= i < |r| - 1
      ensures r[i + 1] in adj[r[i]]
    {
      if i < |p| - 1 {
        assert r[i] == p[i] && r[i + 1] == p[i + 1];
      } else {
        assert r[i] == q[i - |p| + 1] && r[i + 1] == q[i - |p| + 2];
      }
    }
    assert Walk(adj, r);
  }

  /** A node reached along a walk from `u` is one `Reachable` counts. */
  lemma ReachesReachable(adj: Adjacency, u: nat, w: nat)
    requires Closed(adj) && u < |adj| && Reaches(adj, u, w)
    ensures w in Reachable(adj, {u})
  {
    var p :| Walk(adj, p) && p[0] == u && p[|p| - 1] == w;
    WalkWithin(adj, {u}, p);
    WithinReachable(adj, {u}, |p| - 1);
  }

  /** Every node on the stack reaches a running node with an index no larger than its own. */
  ghost predicate ReachesActive(adj: Adjacency, st: State, active: set<nat>)
  {
    forall y :: y in st.stack ==> exists a :: ActiveBelow(adj, st, active, y, a)
  }

  /** `a` is a running node that `y` reaches, with an index no larger than `y`'s. */
  ghost predicate ActiveBelow(adj: Adjacency, st: State, active: set<nat>, y: nat, a: nat)
  {
    a in active && a in st.entries && y in st.entries
    && st.entries[a].index <= st.entries[y].index && Reaches(adj, y, a)
  }

  /** Every node on the stack reaches a node on the stack whose index is at most its lowlink. */
  ghost predicate ReachesLow(adj: Adjacency, st: State)
  {
    forall y {:trigger LowReached(adj, st, y)} :: y in st.stack ==> LowReached(adj, st, y)
  }

  /**
   * `y` reaches a node on the stack whose index is at most `y`'s lowlink.
   * `ReachesLow` is triggered on this predicate alone: the witness is itself
   * on the stack, so a trigger on stack membership would instantiate it
   * again without end.
   */
  ghost predicate LowReached(adj: Adjacency, st: State, y: nat)
  {
    exists x :: LowBelow(adj, st, y, x)
  }

  /** `x` is a node on the stack that `y` reaches, with an index no larger than `y`'s lowlink. */
  ghost predicate LowBelow(adj: Adjacency, st: State, y: nat, x: nat)
  {
    x in st.stack && x in st.entries && y in st.entries
    && st.entries[x].index <= st.entries[y].lowlink && Reaches(adj, y, x)
  }

  /** The members of each completed component reach each other. */
  ghost predicate ComponentsStrong(adj: Adjacency, comps: seq<seq<nat>>)
  {
    forall c, u, w :: 0 <= c < |comps| && u in comps[c] && w in comps[c] ==> Reaches(adj, u, w)
  }

  /** The reachability facts the search keeps besides `Inv`. */
  ghost predicate Strong(adj: Adjacency, st: State, active: set<nat>)
  {
    ReachesActive(adj, st, active) && ReachesLow(adj, st) && ComponentsStrong(adj, st.components)
  }

  /** `v` is reachable from every running node. */
  ghost predicate BelowActive(adj: Adjacency, active: set<nat>, v: nat)
  {
    forall a :: a in active ==> Reaches(adj, a, v)
  }

  /** Every node first visited between `st` and `st'` is reachable from `v`. */
  ghost predicate NewFrom(adj: Adjacency, st: State, st': State, v: nat)
  {
    forall u :: u in st'.entries && u !in st.entries ==> Reaches(adj, v, u)
  }

  lemma StartStrong(adj: Adjacency)
    ensures Strong(adj, Start(), {})
  {
  }

  /** With an empty stack only the components matter, whatever runs. */
  lemma EmptyStrong(adj: Adjacency, st: State, v: nat)
    requires Strong(adj, st, {}) && st.stack == []
    ensures Strong(adj, st, {v}) && BelowActive(adj, {}, v)
  {
  }

  /** Pushing `v` keeps the facts, with `v` running; `v` is the only new node. */
  lemma PushStrong(adj: Adjacency, st: State, v: nat, active: set<nat>)
    requires Strong(adj, st, active) && v < |adj| && v !in st.entries
    ensures Strong(adj, Push(st, v), active + {v}) && NewFrom(adj, st, Push(st, v), v)
  {
    var st' := Push(st, v);
    ReachSelf(adj, v);
    forall y | y in st'.stack
      ensures exists a :: ActiveBelow(adj, st', active + {v}, y, a)
      ensures LowReached(adj, st', y)
    {
      if y == v {
        assert ActiveBelow(adj, st', active + {v}, v, v);
        assert LowBelow(adj, st', v, v);
      } else {
        assert y in st.stack;
        var a :| ActiveBelow(adj, st, active, y, a);
        assert st'.entries[a] == st.entries[a] && st'.entries[y] == st.entries[y];
        assert ActiveBelow(adj, st', active + {v}, y, a);
        assert LowReached(adj, st, y);
        var x :| LowBelow(adj, st, y, x);
        assert st'.entries[x] == st.entries[x];
        assert LowBelow(adj, st', y, x);
      }
    }
  }

  /** Every running node reaches the end of an edge out of `v`, the node `v`'s call runs. */
  lemma ChildBelow(adj: Adjacency, active: set<nat>, v: nat, w: nat)
    requires Closed(adj) && v < |adj| && w in adj[v] && BelowActive(adj, active, v)
    ensures BelowActive(adj, active + {v}, w)
  {
    ReachEdge(adj, v, w);
    forall a | a in active
      ensures Reaches(adj, a, w)
    {
      ReachTrans(adj, a, v, w);
    }
  }

  /**
   * Lowering `v`'s lowlink to `low`, where `low` is at least the index of a
   * node `x` on the stack that `v` reaches, keeps the facts.
   */
  lemma LowerStrong(adj: Adjacency, st: State, v: nat, e: Entry, x: nat, active: set<nat>)
    requires Strong(adj, st, active) && v in st.entries && e.index == st.entries[v].index
    requires e.lowlink < st.entries[v].lowlink ==>
               x in st.stack && x in st.entries && st.entries[x].index <= e.lowlink && Reaches(adj, v, x)
    ensures Strong(adj, SetEntry(st, v, e), active)
  {
    var st' := SetEntry(st, v, e);
    forall y | y in st'.stack
      ensures exists a :: ActiveBelow(adj, st', active, y, a)
      ensures LowReached(adj, st', y)
    {
      var a :| ActiveBelow(adj, st, active, y, a);
      assert st'.entries[a].index == st.entries[a].index && st'.entries[y].index == st.entries[y].index;
      assert ActiveBelow(adj, st', active, y, a);
      if y == v && e.lowlink < st.entries[v].lowlink {
        assert st'.entries[x].index == st.entries[x].index;
        assert LowBelow(adj, st', y, x);
      } else {
        assert LowReached(adj, st, y);
        var z :| LowBelow(adj, st, y, z);
        assert st'.entries[z].index == st.entries[z].index;
        assert st.entries[y].lowlink <= st'.entries[y].lowlink;
        assert LowBelow(adj, st', y, z);
      }
    }
  }

  /** The child case of the callback: `v` takes the lowlink of `w`, searched from `st` to `st1`. */
  lemma ChildStrong(adj: Adjacency, reach: set<nat>, st0: State, st: State, st1: State, v: nat, j: nat, active: set<nat>)
    requires Closed(adj) && v < |adj| && j < |adj[v]| && adj[v][j] !in st.entries
    requires Inv(adj, reach, st, active + {v}) && Shape(st0, st, v) && NewFrom(adj, st0, st, v)
    requires Strong(adj, st1, active + {v}) && Framed(st, st1, adj[v][j]) && NewFrom(adj, st, st1, adj[v][j])
    ensures var w := adj[v][j];
      var st' := SetEntry(st1, v, Relaxed(st1.entries[v], st1.entries[w].lowlink, st1.entries[w]));
      Strong(adj, st', active + {v}) && NewFrom(adj, st0, st', v)
  {
    var w := adj[v][j];
    var e := Relaxed(st1.entries[v], st1.entries[w].lowlink, st1.entries[w]);
    assert v in st.stack by {
      assert st.stack[|st0.stack|] == v;
    }
    assert st1.entries[v] == st.entries[v];
    ReachEdge(adj, v, w);
    if |st1.stack| == |st.stack| {
      LowerStrong(adj, st1, v, e, v, active + {v});
    } else {
      assert st1.stack[|st.stack|] == w;
      assert w in st1.stack;
      assert LowReached(adj, st1, w);
      var x :| LowBelow(adj, st1, w, x);
      ReachTrans(adj, v, w, x);
      LowerStrong(adj, st1, v, e, x, active + {v});
    }
    forall u | u in st1.entries && u !in st0.entries
      ensures Reaches(adj, v, u)
    {
      if u !in st.entries {
        ReachTrans(adj, v, w, u);
      }
    }
  }

  /** The case of a visited `w`: a `w` on the stack lowers `v`'s lowlink to its index. */
  lemma SeenStrong(adj: Adjacency, reach: set<nat>, st0: State, st: State, v: nat, j: nat, active: set<nat>)
    requires Closed(adj) && v < |adj| && j < |adj[v]| && adj[v][j] in st.entries
    requires Inv(adj, reach, st, active + {v}) && Shape(st0, st, v)
    requires Strong(adj, st, active + {v}) && NewFrom(adj, st0, st, v)
    ensures var w := adj[v][j];
      var low := if st.entries[w].component == -1 then st.entries[w].index else st.entries[v].lowlink;
      var st' := SetEntry(st, v, Relaxed(st.entries[v], low, st.entries[w]));
      Strong(adj, st', active + {v}) && NewFrom(adj, st0, st', v)
  {
    var w := adj[v][j];
    var low := if st.entries[w].component == -1 then st.entries[w].index else st.entries[v].lowlink;
    var e := Relaxed(st.entries[v], low, st.entries[w]);
    ReachEdge(adj, v, w);
    LowerStrong(adj, st, v, e, w, active + {v});
  }

  /** A node of `Reverse(p)` is a node of `p`. */
  lemma InReverse(p: seq<nat>, u: nat)
    requires u in Reverse(p)
    ensures u in p
  {
    var i :| 0 <= i < |p| && Reverse(p)[i] == u;
    assert p[|p| - 1 - i] == u;
  }

  /** The end of `strongconnect(v)`: whether `v` pops its component or stays, the facts hold without `v` running. */
  lemma FinishStrong(adj: Adjacency, reach: set<nat>, st: State, cur: State, v: nat, active: set<nat>)
    requires Closed(adj) && v < |adj| && active <= st.entries.Keys
    requires Inv(adj, reach, cur, active + {v}) && Shape(st, cur, v)
    requires Strong(adj, cur, active + {v}) && BelowActive(adj, active, v) && NewFrom(adj, st, cur, v)
    ensures Strong(adj, Ending(st, cur, v), active) && NewFrom(adj, st, Ending(st, cur, v), v)
  {
    if cur.entries[v].lowlink == cur.entries[v].index {
      StackSplit(cur, |st.stack|);
      RootStrong(adj, st, cur, v, active);
    } else {
      OpenStrong(adj, reach, st, cur, v, active);
    }
  }

  /** A node that stays on the stack at the end of its call hands its nodes on to a running node below it. */
  lemma OpenStrong(adj: Adjacency, reach: set<nat>, st: State, cur: State, v: nat, active: set<nat>)
    requires Closed(adj) && v < |adj|
    requires Inv(adj, reach, cur, active + {v}) && Shape(st, cur, v)
    requires Strong(adj, cur, active + {v}) && cur.entries[v].lowlink != cur.entries[v].index
    ensures Strong(adj, cur, active)
  {
    assert v in cur.stack by {
      assert cur.stack[|st.stack|] == v;
    }
    assert LowReached(adj, cur, v);
    var x :| LowBelow(adj, cur, v, x);
    assert cur.entries[x].index < cur.entries[v].index;
    var ax :| ActiveBelow(adj, cur, active + {v}, x, ax);
    assert ax != v;
    ReachTrans(adj, v, x, ax);
    forall y | y in cur.stack
      ensures exists a :: ActiveBelow(adj, cur, active, y, a)
    {
      var a :| ActiveBelow(adj, cur, active + {v}, y, a);
      if a == v {
        ReachTrans(adj, y, v, ax);
        assert ActiveBelow(adj, cur, active, y, ax);
      } else {
        assert ActiveBelow(adj, cur, active, y, a);
      }
    }
  }

  /** A root pops its component: the nodes below it keep their facts and the popped nodes reach each other. */
  lemma RootStrong(adj: Adjacency, st: State, cur: State, v: nat, active: set<nat>)
    requires v < |adj| && StackOrdered(cur) && LowOk(cur) && Shape(st, cur, v)
    requires Strong(adj, cur, active + {v}) && BelowActive(adj, active, v) && NewFrom(adj, st, cur, v)
    ensures Strong(adj, Popped(cur, |st.stack|), active) && NewFrom(adj, st, Popped(cur, |st.stack|), v)
  {
    var base := |st.stack|;
    PoppedKeeps(cur, base);
    PopKept(adj, cur, base, active, v);
    PoppedStrong(adj, st, cur, v, active);
    AppendStrong(adj, cur.components, Reverse(cur.stack[base..]));
  }

  /** Adding a strongly connected component to strongly connected ones. */
  lemma AppendStrong(adj: Adjacency, comps: seq<seq<nat>>, c: seq<nat>)
    requires ComponentsStrong(adj, comps)
    requires forall u, w :: u in c && w in c ==> Reaches(adj, u, w)
    ensures ComponentsStrong(adj, comps + [c])
  {
  }

  /** The nodes a root pops reach each other, through the root. */
  lemma PoppedStrong(adj: Adjacency, st: State, cur: State, v: nat, active: set<nat>)
    requires v < |adj| && Shape(st, cur, v)
    requires Strong(adj, cur, active + {v}) && BelowActive(adj, active, v) && NewFrom(adj, st, cur, v)
    ensures forall u, w :: u in Reverse(cur.stack[|st.stack|..]) && w in Reverse(cur.stack[|st.stack|..]) ==> Reaches(adj, u, w)
  {
    var base := |st.stack|;
    forall u, w | u in Reverse(cur.stack[base..]) && w in Reverse(cur.stack[base..])
      ensures Reaches(adj, u, w)
    {
      InReverse(cur.stack[base..], u);
      InReverse(cur.stack[base..], w);
      PoppedReaches(adj, cur, v, active, u);
      PoppedReached(adj, st, cur, v, w);
      ReachTrans(adj, u, v, w);
    }
  }

  /** What popping from stack position `base` keeps: the nodes below it and every index and lowlink. */
  lemma PoppedKeeps(cur: State, base: nat)
    requires base <= |cur.stack|
    ensures Popped(cur, base).stack == cur.stack[..base]
    ensures Popped(cur, base).entries.Keys == cur.entries.Keys
    ensures forall u :: u in cur.entries ==>
      Popped(cur, base).entries[u].index == cur.entries[u].index
      && Popped(cur, base).entries[u].lowlink == cur.entries[u].lowlink
  {
  }

  /** The nodes below the popped ones keep their witnesses, none of which is `v` or above it. */
  lemma PopKept(adj: Adjacency, cur: State, base: nat, active: set<nat>, v: nat)
    requires StackOrdered(cur) && LowOk(cur) && base < |cur.stack| && cur.stack[base] == v
    requires ReachesActive(adj, cur, active + {v}) && ReachesLow(adj, cur)
    ensures ReachesActive(adj, Popped(cur, base), active) && ReachesLow(adj, Popped(cur, base))
  {
    var st' := Popped(cur, base);
    PoppedKeeps(cur, base);
    forall y | y in st'.stack
      ensures exists a :: ActiveBelow(adj, st', active, y, a)
      ensures LowReached(adj, st', y)
    {
      var i :| 0 <= i < base && cur.stack[..base][i] == y;
      var a, x := KeptAt(adj, cur, base, active, v, i);
      assert ActiveBelow(adj, st', active, y, a);
      assert x in st'.stack;
      assert LowBelow(adj, st', y, x);
    }
  }

  /** The witnesses of the node at stack position `i` below `base`. */
  lemma KeptAt(adj: Adjacency, cur: State, base: nat, active: set<nat>, v: nat, i: nat)
    returns (a: nat, x: nat)
    requires StackOrdered(cur) && LowOk(cur) && i < base < |cur.stack| && cur.stack[base] == v
    requires ReachesActive(adj, cur, active + {v}) && ReachesLow(adj, cur)
    ensures ActiveBelow(adj, cur, active, cur.stack[i], a)
    ensures LowBelow(adj, cur, cur.stack[i], x) && x in cur.stack[..base]
  {
    var y := cur.stack[i];
    assert y in cur.stack;
    a :| ActiveBelow(adj, cur, active + {v}, y, a);
    assert LowReached(adj, cur, y);
    x :| LowBelow(adj, cur, y, x);
    assert cur.entries[y].index < cur.entries[v].index;
    var k :| 0 <= k < |cur.stack| && cur.stack[k] == x;
    assert cur.entries[x].index < cur.entries[v].index;
    assert k < base;
    assert x == cur.stack[..base][k];
  }

  /** A popped node reaches the root `v`. */
  lemma PoppedReaches(adj: Adjacency, cur: State, v: nat, active: set<nat>, u: nat)
    requires Strong(adj, cur, active + {v}) && BelowActive(adj, active, v)
    requires u in cur.stack
    ensures Reaches(adj, u, v)
  {
    var a :| ActiveBelow(adj, cur, active + {v}, u, a);
    if a != v {
      ReachTrans(adj, u, a, v);
    }
  }

  /** The root `v` reaches every popped node. */
  lemma PoppedReached(adj: Adjacency, st: State, cur: State, v: nat, w: nat)
    requires Shape(st, cur, v) && NewFrom(adj, st, cur, v) && v < |adj|
    requires w in cur.stack[|st.stack|..]
    ensures Reaches(adj, v, w)
  {
    var k :| 0 <= k < |cur.stack[|st.stack|..]| && cur.stack[|st.stack|..][k] == w;
    assert w == cur.stack[|st.stack| + k];
    if k == 0 {
      ReachSelf(adj, v);
    }
  }

  /** Reversing the list of components keeps each one strongly connected. */
  lemma ReversedStrong(adj: Adjacency, comps: seq<seq<nat>>, r: seq<seq<nat>>)
    requires Reversal(r, comps) && ComponentsStrong(adj, comps)
    ensures ComponentsStrong(adj, r)
  {
    forall c, u, w | 0 <= c < |r| && u in r[c] && w in r[c]
      ensures Reaches(adj, u, w)
    {
      assert r[c] == comps[|comps| - 1 - c];
    }
  }

  /** Members of a strongly connected component reach each other in the sense of `Reachable`. */
  lemma StrongReachable(adj: Adjacency, comps: seq<seq<nat>>)
    requires Closed(adj) && ComponentsStrong(adj, comps)
    ensures forall c, u, w :: 0 <= c < |comps| && u in comps[c] && w in comps[c] ==> w in Reachable(adj, {u})
  {
    forall c, u, w | 0 <= c < |comps| && u in comps[c] && w in comps[c]
      ensures w in Reachable(adj, {u})
    {
      assert Reaches(adj, u, w);
      ReachesReachable(adj, u, w);
    }
  }

  /**
   * When the components partition a set closed under successors and every
   * edge points forwards, nodes that reach each other share a component:
   * no component can be merged with another.
   */
  lemma Maximal(adj: Adjacency, comps: seq<seq<nat>>, nodes: set<nat>)
    requires Partitions(comps, nodes) && EdgesForward(adj, comps) && ReachClosed(adj, nodes)
    ensures forall c, d, u, w ::
      (0 <= c < |comps| && 0 <= d < |comps| && u in comps[c] && w in comps[d]
       && w in Reachable(adj, {u}) && u in Reachable(adj, {w})) ==> c == d
  {
    forall c, d, u, w | 0 <= c < |comps| && 0 <= d < |comps| && u in comps[c] && w in comps[d]
      && w in Reachable(adj, {u}) && u in Reachable(adj, {w})
      ensures c == d
    {
      ReachedLater(adj, comps, nodes, c, u, d, w);
      ReachedLater(adj, comps, nodes, d, w, c, u);
    }
  }

  /** A node reached from component `c` lies in component `c` or a later one. */
  lemma ReachedLater(adj: Adjacency, comps: seq<seq<nat>>, nodes: set<nat>, c: nat, u: nat, d: nat, w: nat)
    requires Partitions(comps, nodes) && EdgesForward(adj, comps) && ReachClosed(adj, nodes)
    requires c < |comps| && u in comps[c] && d < |comps| && w in comps[d] && w in Reachable(adj, {u})
    ensures c <= d
  {
    var later := set x | x in nodes && Later(comps, c, x);
    assert u in nodes;
    assert Later(comps, c, u);
    forall y | y in Succ(adj, later)
      ensures y in later
    {
      var x :| x in later && x < |adj| && y in adj[x];
      var e :| c <= e < |comps| && x in comps[e];
      assert y in nodes;
      var f :| 0 <= f < |comps| && y in comps[f];
      assert Later(comps, c, y);
    }
    ClosedHoldsWithin(adj, {u}, later, |adj|);
    var e :| c <= e < |comps| && w in comps[e];
    var i :| 0 <= i < |comps[e]| && comps[e][i] == w;
    var j :| 0 <= j < |comps[d]| && comps[d][j] == w;
  }

  /** `x` lies in component `c` or a later one. */
  ghost predicate Later(comps: seq<seq<nat>>, c: nat, x: nat)
  {
    exists e :: c <= e < |comps| && x in comps[e]
  }
}
