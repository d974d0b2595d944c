/**
 * 2024 day 5 (2024/src/day05.hpp): print queue. A rule "a|b" says page a
 * must be printed before page b; the rules are kept as anti-dependencies,
 * for each page the set of pages that must not come before it, and an
 * ordering is checked page by page against the pages already seen.
 */
module Y2024Day05 {

  /** The pages that must not appear before p. */
  function Forbidden(antiDeps: map<int, set<int>>, p: int): set<int>
  {
    if p in antiDeps then antiDeps[p] else {}
  }

  /** The anti-dependencies read from the rules "a|b", in order. */
  function RulesOf(rules: seq<(int, int)>): map<int, set<int>>
  {
    if rules == [] then map[]
    else
      var m := RulesOf(rules[..|rules| - 1]);
      var (first, second) := rules[|rules| - 1];
      m[first := Forbidden(m, first) + {second}]
  }

  /** No page of the ordering comes after a page it must not follow. */
  predicate ValidOrdering(antiDeps: map<int, set<int>>, pages: seq<int>)
  {
    ValidBefore(antiDeps, pages, |pages|)
  }

  /** The first n pages of the ordering are valid. */
  predicate ValidBefore(antiDeps: map<int, set<int>>, pages: seq<int>, n: nat)
    requires n <= |pages|
  {
    forall i, j :: 0 <= i < j < n ==> pages[i] !in Forbidden(antiDeps, pages[j])
  }

  /** The first n pages, as a set. */
  function Seen(pages: seq<int>, n: nat): set<int>
    requires n <= |pages|
  {
    set k | 0 <= k < n :: pages[k]
  }

  lemma SeenNext(pages: seq<int>, n: nat)
    requires n < |pages|
    ensures Seen(pages, n + 1) == Seen(pages, n) + {pages[n]}
  {
  }

  /** A page not forbidden by any earlier one extends a valid prefix. */
  lemma ValidNext(antiDeps: map<int, set<int>>, pages: seq<int>, n: nat)
    requires n < |pages| && ValidBefore(antiDeps, pages, n)
    requires Forbidden(antiDeps, pages[n]) * Seen(pages, n) == {}
    ensures ValidBefore(antiDeps, pages, n + 1)
  {
    forall k | 0 <= k < n ensures pages[k] !in Forbidden(antiDeps, pages[n]) {
      assert pages[k] in Seen(pages, n);
      assert pages[k] !in Forbidden(antiDeps, pages[n]) * Seen(pages, n);
    }
  }

  /** A forbidden page among those seen makes the ordering invalid. */
  lemma InvalidAt(antiDeps: map<int, set<int>>, pages: seq<int>, n: nat)
    requires n < |pages| && Forbidden(antiDeps, pages[n]) * Seen(pages, n) != {}
    ensures !ValidOrdering(antiDeps, pages)
  {
    if ValidOrdering(antiDeps, pages) {
      assert false;
    }
  }

  class Rules {
    /** For each page p, the pages that must not occur before p. */
    var antiDeps: map<int, set<int>>

    /**
     * `Rules::read`, the rules section: each "first|second" line adds
     * second to the anti-dependencies of first. The lines are given as the
     * pairs they parse to.
     */
    constructor Read(rules: seq<(int, int)>)
      ensures antiDeps == RulesOf(rules)
    {
      var m: map<int, set<int>> := map[];
      for i := 0 to |rules|
        invariant m == RulesOf(rules[..i])
      {
        assert rules[..i + 1][..i] == rules[..i];
        var (first, second) := rules[i];
        m := m[first := Forbidden(m, first) + {second}];
      }
      assert rules[..|rules|] == rules;
      antiDeps := m;
    }

    /**
     * `is_valid_ordering`: the pages seen so far must not meet the
     * anti-dependencies of the current page.
     */
    method IsValidOrdering(pages: seq<int>) returns (valid: bool)
      ensures valid == ValidOrdering(antiDeps, pages)
    {
      var seen: set<int> := {};
      for i := 0 to |pages|
        invariant seen == Seen(pages, i)
        invariant ValidBefore(antiDeps, pages, i)
      {
        var p := pages[i];
        if p in antiDeps {
          var invalid := antiDeps[p] * seen;
          if invalid != {} {
            InvalidAt(antiDeps, pages, i);
            return false;
          }
        }
        ValidNext(antiDeps, pages, i);
        SeenNext(pages, i);
        seen := seen + {p};
      }
      return true;
    }
  }

  /** A page's anti-dependencies are exactly the pages its rules put after it. */
  lemma {:induction false} RulesOfMeaning(rules: seq<(int, int)>, first: int, second: int)
    ensures second in Forbidden(RulesOf(rules), first) <==> (first, second) in rules
  {
    if rules != [] {
      var init, last := rules[..|rules| - 1], rules[|rules| - 1];
      RulesOfMeaning(init, first, second);
      assert rules == init + [last];
      assert (first, second) in rules <==> (first, second) in init || (first, second) == last;
    }
  }

  /**
   * An ordering is valid exactly when no rule "a|b" has b printed before a.
   */
  lemma ValidOrderingByRules(rules: seq<(int, int)>, pages: seq<int>)
    ensures ValidOrdering(RulesOf(rules), pages) <==>
      forall i, j :: 0 <= i < j < |pages| ==> (pages[j], pages[i]) !in rules
  {
    forall i, j | 0 <= i < j < |pages|
      ensures pages[i] in Forbidden(RulesOf(rules), pages[j]) <==> (pages[j], pages[i]) in rules
    {
      RulesOfMeaning(rules, pages[j], pages[i]);
    }
  }

  /** The empty ordering, and any single page, is valid. */
  lemma ShortOrderingsValid(antiDeps: map<int, set<int>>, pages: seq<int>)
    requires |pages| <= 1
    ensures ValidOrdering(antiDeps, pages)
  {
  }

  /** Orderings that are valid stay valid when their last pages are cut off. */
  lemma ValidPrefix(antiDeps: map<int, set<int>>, pages: seq<int>, n: nat)
    requires n <= |pages| && ValidOrdering(antiDeps, pages)
    ensures ValidOrdering(antiDeps, pages[..n])
  {
  }

  /** From the worked example: with 97|75 the ordering 75,97,47,61,53 is not valid. */
  lemma Example()
    ensures !ValidOrdering(RulesOf([(97, 75)]), [75, 97, 47, 61, 53])
  {
    var rules, pages := [(97, 75)], [75, 97, 47, 61, 53];
    RulesOfMeaning(rules, 97, 75);
    assert pages[0] in Forbidden(RulesOf(rules), pages[1]);
  }
}
