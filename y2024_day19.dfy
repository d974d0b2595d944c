/**
 * 2024 day 19 (2024/src/day19.hpp): linen layout. Towel patterns are
 * stored in a trie over the five stripe colours; a design is checked by
 * walking the trie from each position and recursing at every node that
 * ends a pattern, counting the ways to split the design into patterns.
 *
 * The trie's nodes live in a list and point at each other; here the list
 * is a sequence and a pointer is the index of the node it points at.
 */
module Y2024Day19 {
  import opened AocLib

  datatype Color = White | Blue | Black | Red | Green

  /** The colour's numeric value (its child slot in a trie node). */
  function ColorIndex(c: Color): (i: nat)
    ensures i < 5
  {
    match c
    case White => 0
    case Blue => 1
    case Black => 2
    case Red => 3
    case Green => 4
  }

  function ColorAt(i: nat): (c: Color)
    requires i < 5
    ensures ColorIndex(c) == i
  {
    if i == 0 then White else if i == 1 then Blue else if i == 2 then Black else if i == 3 then Red else Green
  }

  /** The colour a letter names: w, u, b, r or g. */
  function ColorOf(ch: char): Option<Color>
  {
    match ch
    case 'w' => Some(White)
    case 'u' => Some(Blue)
    case 'b' => Some(Black)
    case 'r' => Some(Red)
    case 'g' => Some(Green)
    case _ => None
  }

  /** The letter of a colour. */
  function ColorChar(c: Color): char
  {
    match c
    case White => 'w'
    case Blue => 'u'
    case Black => 'b'
    case Red => 'r'
    case Green => 'g'
  }

  /** Letters and colours correspond one to one. */
  lemma ColorCharRoundTrip(c: Color, ch: char)
    ensures ColorOf(ColorChar(c)) == Some(c)
    ensures ColorOf(ch) == Some(c) ==> ColorChar(c) == ch
  {
  }

  /**
   * `str_to_colors`: each letter becomes its colour. Any other letter
   * fails the source's assertion, so the letters must all be colours.
   */
  method StrToColors(s: string) returns (v: seq<Color>)
    requires forall k :: 0 <= k < |s| ==> ColorOf(s[k]).Some?
    ensures |v| == |s|
    ensures forall k :: 0 <= k < |s| ==> ColorOf(s[k]) == Some(v[k])
  {
    v := [];
    for i := 0 to |s|
      invariant |v| == i
      invariant forall k :: 0 <= k < i ==> ColorOf(s[k]) == Some(v[k])
    {
      v := v + [ColorOf(s[i]).value];
    }
  }

  /** A trie node: does a pattern end here, and the child for each colour. */
  datatype Node = Node(isTerminal: bool, children: seq<Option<nat>>)

  const EmptyNode := Node(false, [None, None, None, None, None])

  /** A root exists, and every node has five child slots pointing at nodes of the list. */
  predicate WellLinked(nodes: seq<Node>)
  {
    |nodes| >= 1 &&
    forall k :: 0 <= k < |nodes| ==>
      |nodes[k].children| == 5 &&
      (forall c :: 0 <= c < 5 && nodes[k].children[c].Some? ==> nodes[k].children[c].value < |nodes|)
  }

  /** The node reached from the root by following the colours of s, if any. */
  function Walk(nodes: seq<Node>, s: seq<Color>): (r: Option<nat>)
    requires WellLinked(nodes)
    ensures r.Some? ==> r.value < |nodes|
  {
    if s == [] then Some(0)
    else
      match Walk(nodes, s[..|s| - 1])
      case None => None
      case Some(n) => nodes[n].children[ColorIndex(s[|s| - 1])]
  }

  /** The pattern is stored: walking it ends at a terminal node. */
  predicate Stored(nodes: seq<Node>, p: seq<Color>)
    requires WellLinked(nodes)
  {
    Walk(nodes, p).Some? && nodes[Walk(nodes, p).value].isTerminal
  }

  /** Every node is labelled with the colours that lead to it, so each node has one path from the root. */
  ghost predicate Labelled(nodes: seq<Node>, words: seq<seq<Color>>)
  {
    WellLinked(nodes) && |words| == |nodes| && words[0] == [] &&
    forall k, c :: 0 <= k < |nodes| && 0 <= c < 5 && nodes[k].children[c].Some? ==>
      words[nodes[k].children[c].value] == words[k] + [ColorAt(c)]
  }

  /** The ways to split design[start..] into stored patterns; the empty rest counts once. */
  function Ways(nodes: seq<Node>, design: seq<Color>, start: nat): nat
    requires WellLinked(nodes) && start <= |design|
    decreases |design| - start, |design| - start + 1
  {
    if start == |design| then 1 else WaysFrom(nodes, design, start, start)
  }

  /** The ways whose first pattern ends at position i or later. */
  function WaysFrom(nodes: seq<Node>, design: seq<Color>, start: nat, i: nat): nat
    requires WellLinked(nodes) && start <= i <= |design|
    decreases |design| - start, |design| - i
  {
    if i == |design| then 0
    else
      (if Stored(nodes, design[start..i + 1]) then Ways(nodes, design, i + 1) else 0)
      + WaysFrom(nodes, design, start, i + 1)
  }

  /** Every memo entry filled in holds the uncached count from its position. */
  ghost predicate MemoOk(nodes: seq<Node>, design: seq<Color>, memo: seq<Option<int>>)
    requires WellLinked(nodes)
  {
    |memo| == |design| &&
    forall k :: 0 <= k < |memo| && memo[k].Some? ==> memo[k].value == Ways(nodes, design, k)
  }

  class DesignChecker {
    var nodes: seq<Node>
    /** The colours leading to each node. */
    ghost var words: seq<seq<Color>>

    ghost predicate Valid()
      reads this
    {
      Labelled(nodes, words)
    }

    /** A new checker holds only the root, and so no pattern. */
    constructor ()
      ensures Valid() && nodes == [EmptyNode]
      ensures forall q :: !Stored(nodes, q)
    {
      nodes := [EmptyNode];
      words := [[]];
      new;
      forall q ensures !Stored(nodes, q) {
        EmptyTrie(q);
      }
    }

    /** `get_child`: the node's child for the colour, appended to the list when missing. */
    method GetChild(k: nat, color: Color) returns (child: nat)
      requires Valid() && k < |nodes|
      modifies this
      ensures Valid() && |old(nodes)| <= |nodes|
      ensures child < |nodes| && nodes[k].children[ColorIndex(color)] == Some(child)
      ensures forall s :: Walk(old(nodes), s).Some? ==> Walk(nodes, s) == Walk(old(nodes), s)
      ensures forall q :: Stored(nodes, q) <==> Stored(old(nodes), q)
    {
      var c := ColorIndex(color);
      if nodes[k].children[c].Some? {
        return nodes[k].children[c].value;
      }
      var before := nodes;
      child := |nodes|;
      var parent := Node(nodes[k].isTerminal, nodes[k].children[c := Some(child)]);
      nodes := nodes[k := parent] + [EmptyNode];
      words := words + [words[k] + [color]];
      AddChildLinked(before, old(words), k, c);
      forall s ensures (Walk(before, s).Some? ==> Walk(nodes, s) == Walk(before, s))
        && (Stored(nodes, s) <==> Stored(before, s))
      {
        AddChildWalk(before, k, c, s);
      }
    }

    /**
     * `add_pattern`: walk the pattern from the root, creating missing
     * children, and mark the node reached as the end of a pattern.
     */
    method AddPattern(pattern: seq<Color>)
      requires Valid()
      modifies this
      ensures Valid()
      ensures forall q :: Stored(nodes, q) <==> Stored(old(nodes), q) || q == pattern
    {
      var node := 0;
      for i := 0 to |pattern|
        invariant Valid()
        invariant Walk(nodes, pattern[..i]) == Some(node)
        invariant forall q :: Stored(nodes, q) <==> Stored(old(nodes), q)
      {
        node := GetChild(node, pattern[i]);
        assert pattern[..i + 1][..i] == pattern[..i];
      }
      assert pattern[..|pattern|] == pattern;
      MarkTerminal(nodes, words, node, pattern);
      nodes := nodes[node := Node(true, nodes[node].children)];
    }

    /** `check`: the number of ways to make the design from the stored patterns. */
    method Check(design: seq<Color>) returns (count: int)
      requires Valid()
      ensures count == Ways(nodes, design, 0)
    {
      var memo := new Option<int>[|design|](_ => None);
      count := CheckHelper(design, memo, 0);
    }

    /**
     * `check_helper`: answer from the memo when it can; otherwise walk the
     * trie along the design from `start`, stopping at a missing child and
     * recursing after every node that ends a pattern, and remember the
     * count.
     */
    method CheckHelper(design: seq<Color>, memo: array<Option<int>>, start: nat) returns (count: int)
      requires Valid() && start <= |design|
      requires MemoOk(nodes, design, memo[..])
      modifies memo
      ensures MemoOk(nodes, design, memo[..])
      ensures count == Ways(nodes, design, start)
      decreases |design| - start
    {
      if start == |design| {
        return 1;
      }
      if memo[start].Some? {
        return memo[start].value;
      }
      var node := 0;
      count := 0;
      var i := start;
      assert design[start..start] == [];
      while i < |design|
        invariant start <= i <= |design| && MemoOk(nodes, design, memo[..])
        invariant Walk(nodes, design[start..i]) == Some(node)
        invariant count + WaysFrom(nodes, design, start, i) == WaysFrom(nodes, design, start, start)
      {
        assert design[start..i + 1][..i - start] == design[start..i];
        var next := nodes[node].children[ColorIndex(design[i])];
        if next.None? {
          DeadEnd(nodes, design, start, i);
          break;
        }
        node := next.value;
        if nodes[node].isTerminal {
          var sub := CheckHelper(design, memo, i + 1);
          count := count + sub;
        }
        i := i + 1;
      }
      memo[start] := Some(count);
    }
  }

  /** The empty trie walks only the empty word, to its non-terminal root. */
  lemma {:induction false} EmptyTrie(q: seq<Color>)
    ensures Walk([EmptyNode], q) == (if q == [] then Some(0) else None)
  {
    if q != [] {
      EmptyTrie(q[..|q| - 1]);
    }
  }

  /** The node reached by a walk is the one labelled with the colours walked. */
  lemma {:induction false} WalkWord(nodes: seq<Node>, words: seq<seq<Color>>, s: seq<Color>)
    requires Labelled(nodes, words) && Walk(nodes, s).Some?
    ensures words[Walk(nodes, s).value] == s
  {
    if s != [] {
      var init := s[..|s| - 1];
      WalkWord(nodes, words, init);
      assert s == init + [ColorAt(ColorIndex(s[|s| - 1]))];
    }
  }

  /** The list after `get_child` appends a child k --c--> new node. */
  function WithChild(nodes: seq<Node>, k: nat, c: nat): seq<Node>
    requires WellLinked(nodes) && k < |nodes| && c < 5
  {
    nodes[k := Node(nodes[k].isTerminal, nodes[k].children[c := Some(|nodes|)])] + [EmptyNode]
  }

  lemma AddChildLinked(nodes: seq<Node>, words: seq<seq<Color>>, k: nat, c: nat)
    requires Labelled(nodes, words) && k < |nodes| && c < 5 && nodes[k].children[c].None?
    ensures Labelled(WithChild(nodes, k, c), words + [words[k] + [ColorAt(c)]])
  {
  }

  /**
   * Adding a child keeps every walk that succeeded, and a walk of the new
   * list that does not end at the new node ends where it did before; so
   * the stored patterns are the same.
   */
  lemma {:induction false} AddChildWalk(nodes: seq<Node>, k: nat, c: nat, s: seq<Color>)
    requires WellLinked(nodes) && k < |nodes| && c < 5 && nodes[k].children[c].None?
    ensures WellLinked(WithChild(nodes, k, c))
    ensures Walk(nodes, s).Some? ==> Walk(WithChild(nodes, k, c), s) == Walk(nodes, s)
    ensures Walk(WithChild(nodes, k, c), s).Some? && Walk(WithChild(nodes, k, c), s).value < |nodes|
      ==> Walk(nodes, s) == Walk(WithChild(nodes, k, c), s)
    ensures Stored(WithChild(nodes, k, c), s) <==> Stored(nodes, s)
  {
    if s != [] {
      AddChildWalk(nodes, k, c, s[..|s| - 1]);
    }
  }

  /** Marking the node a pattern reaches adds exactly that pattern. */
  lemma MarkTerminal(nodes: seq<Node>, words: seq<seq<Color>>, n: nat, pattern: seq<Color>)
    requires Labelled(nodes, words) && Walk(nodes, pattern) == Some(n)
    ensures Labelled(nodes[n := Node(true, nodes[n].children)], words)
    ensures forall q :: Stored(nodes[n := Node(true, nodes[n].children)], q) <==> Stored(nodes, q) || q == pattern
  {
    var marked := nodes[n := Node(true, nodes[n].children)];
    forall q ensures Walk(marked, q) == Walk(nodes, q) {
      SameLinks(nodes, marked, q);
    }
    forall q | Walk(nodes, q) == Some(n) ensures q == pattern {
      WalkWord(nodes, words, q);
      WalkWord(nodes, words, pattern);
    }
  }

  /** Walks depend only on the child links. */
  lemma {:induction false} SameLinks(nodes: seq<Node>, other: seq<Node>, s: seq<Color>)
    requires WellLinked(nodes) && |other| == |nodes|
    requires forall k :: 0 <= k < |nodes| ==> other[k].children == nodes[k].children
    ensures WellLinked(other) && Walk(other, s) == Walk(nodes, s)
  {
    if s != [] {
      SameLinks(nodes, other, s[..|s| - 1]);
    }
  }

  /** Once a walk falls off the trie, every longer walk does too. */
  lemma {:induction false} NoneStaysNone(nodes: seq<Node>, s: seq<Color>, t: seq<Color>)
    requires WellLinked(nodes) && Walk(nodes, s).None?
    ensures Walk(nodes, s + t).None?
    decreases |t|
  {
    if t != [] {
      var u := t[..|t| - 1];
      NoneStaysNone(nodes, s, u);
      assert (s + t)[..|s + t| - 1] == s + u;
    } else {
      assert s + t == s;
    }
  }

  /** After the trie runs out at position i, no pattern ends at i or later. */
  lemma {:induction false} DeadEnd(nodes: seq<Node>, design: seq<Color>, start: nat, i: nat)
    requires WellLinked(nodes) && start <= i < |design|
    requires Walk(nodes, design[start..i + 1]).None?
    ensures WaysFrom(nodes, design, start, i) == 0
    decreases |design| - i
  {
    if i + 1 < |design| {
      NoneStaysNone(nodes, design[start..i + 1], [design[i + 1]]);
      assert design[start..i + 1] + [design[i + 1]] == design[start..i + 2];
      DeadEnd(nodes, design, start, i + 1);
    }
  }

  /** The ways from i on include those whose first pattern ends at j. */
  lemma {:induction false} WaysFromIncludes(nodes: seq<Node>, design: seq<Color>, start: nat, i: nat, j: nat)
    requires WellLinked(nodes) && start <= i <= j < |design| && Stored(nodes, design[start..j + 1])
    ensures WaysFrom(nodes, design, start, i) >= Ways(nodes, design, j + 1)
    decreases j - i
  {
    if i < j {
      WaysFromIncludes(nodes, design, start, i + 1, j);
    }
  }

  /** The concatenation of a list of patterns. */
  function Concat(parts: seq<seq<Color>>): seq<Color>
  {
    if parts == [] then [] else parts[0] + Concat(parts[1..])
  }

  /** A split of the design from `start` into non-empty stored patterns is counted. */
  lemma {:induction false} SplitCounted(nodes: seq<Node>, design: seq<Color>, start: nat, parts: seq<seq<Color>>)
    requires WellLinked(nodes) && start <= |design|
    requires Concat(parts) == design[start..]
    requires forall k :: 0 <= k < |parts| ==> parts[k] != [] && Stored(nodes, parts[k])
    ensures Ways(nodes, design, start) >= 1
    decreases |parts|
  {
    if parts != [] {
      var len := |parts[0]|;
      var next := start + len;
      assert design[start..] == parts[0] + Concat(parts[1..]);
      assert parts[0] == design[start..next];
      assert Concat(parts[1..]) == design[next..];
      SplitCounted(nodes, design, next, parts[1..]);
      WaysFromIncludes(nodes, design, start, start, next - 1);
    }
  }
}
