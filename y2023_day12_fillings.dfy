/**
 * 2023 day 12 (2023/src/day12.hpp), what `count_arrangements` counts: the
 * ways to fill in the unknown springs of a record so that its runs of bad
 * springs are exactly the groups.
 */
module Y2023Day12Fillings {
  import opened Y2023Day12

  /** The lengths, in order, of the maximal runs of bad springs. */
  function Runs(f: seq<Spring>): seq<nat>
    decreases |f|
  {
    if f == [] then []
    else if f[0] != Bad then Runs(f[1..])
    else
      var n := LeadBad(f);
      [n] + Runs(f[n..])
  }

  /** How many bad springs `f` starts with. */
  function LeadBad(f: seq<Spring>): (n: nat)
    ensures n <= |f| && (f != [] && f[0] == Bad ==> n >= 1)
    ensures forall k :: 0 <= k < n ==> f[k] == Bad
    ensures n < |f| ==> f[n] != Bad
  {
    if f == [] || f[0] != Bad then 0 else 1 + LeadBad(f[1..])
  }

  /** `k` bad springs. */
  function Bads(k: nat): seq<Spring>
  {
    seq(k, _ => Bad)
  }

  /**
   * Every way to fill in the unknown springs of `s`, each exactly once:
   * the first spring can be good unless it is known bad, and bad unless it
   * is known good.
   */
  function Fillings(s: seq<Spring>): seq<seq<Spring>>
    decreases |s|
  {
    if s == [] then [[]]
    else
      var rest := Fillings(s[1..]);
      (if s[0] != Bad then Prepend(Good, rest) else []) + (if s[0] != Good then Prepend(Bad, rest) else [])
  }

  function Prepend(c: Spring, fs: seq<seq<Spring>>): (r: seq<seq<Spring>>)
    ensures |r| == |fs| && forall i :: 0 <= i < |fs| ==> r[i] == [c] + fs[i]
  {
    seq(|fs|, i requires 0 <= i < |fs| => [c] + fs[i])
  }

  /** `f` has no unknown spring. */
  predicate Known(f: seq<Spring>)
  {
    forall i :: 0 <= i < |f| ==> f[i] != Unknown
  }

  /** No record occurs twice. */
  predicate Distinct(fs: seq<seq<Spring>>)
  {
    forall i, j :: 0 <= i < j < |fs| ==> fs[i] != fs[j]
  }

  /** How many records of `fs`, each put after `k` bad springs, have the bad runs `g`. */
  function CountRuns(fs: seq<seq<Spring>>, k: nat, g: seq<nat>): nat
  {
    if fs == [] then 0
    else (if Runs(Bads(k) + fs[0]) == g then 1 else 0) + CountRuns(fs[1..], k, g)
  }

  /** The number of ways to fill in the unknown springs so that the runs of bad springs are the groups. */
  function Matching(s: seq<Spring>, g: seq<nat>, k: nat): nat
  {
    CountRuns(Fillings(s), k, g)
  }

  /** The fillings are exactly the records without unknowns that agree with `s` wherever `s` is known. */
  lemma FillingsAreCompatible(s: seq<Spring>, f: seq<Spring>)
    ensures f in Fillings(s) <==> Known(f) && Compatible(s, f)
  {
    if f in Fillings(s) {
      FillingIsCompatible(s, f);
    }
    if Known(f) && Compatible(s, f) {
      CompatibleIsFilling(s, f);
    }
  }

  lemma {:induction false} FillingIsCompatible(s: seq<Spring>, f: seq<Spring>)
    requires f in Fillings(s)
    ensures Known(f) && Compatible(s, f)
    decreases |s|
  {
    if s == [] {
      assert Fillings(s) == [[]];
    } else {
      InFillings(s, f);
      FillingLength(s, f);
      FillingIsCompatible(s[1..], f[1..]);
      KnownCompatibleCons(s, f);
    }
  }

  lemma {:induction false} CompatibleIsFilling(s: seq<Spring>, f: seq<Spring>)
    requires Known(f) && Compatible(s, f)
    ensures f in Fillings(s)
    decreases |s|
  {
    if s == [] {
      assert f == [] && Fillings(s) == [[]];
    } else {
      KnownCompatibleCons(s, f);
      CompatibleIsFilling(s[1..], f[1..]);
      InFillings(s, f);
    }
  }

  /** Knowing and agreeing with `s`, spring by spring from the front. */
  lemma KnownCompatibleCons(s: seq<Spring>, f: seq<Spring>)
    requires s != [] && |f| == |s|
    ensures Known(f) && Compatible(s, f) <==>
      f[0] != Unknown && (s[0] == Unknown || s[0] == f[0]) && Known(f[1..]) && Compatible(s[1..], f[1..])
  {
    assert forall i :: 1 <= i < |f| ==> f[i] == f[1..][i - 1] && s[i] == s[1..][i - 1];
  }

  /** The records of `Prepend(c, fs)` are those starting with `c` and going on with a record of `fs`. */
  lemma InPrepend(c: Spring, fs: seq<seq<Spring>>, f: seq<Spring>)
    ensures f in Prepend(c, fs) <==> f != [] && f[0] == c && f[1..] in fs
  {
    if f in Prepend(c, fs) {
      var i :| 0 <= i < |fs| && Prepend(c, fs)[i] == f;
      assert f[1..] == fs[i];
    }
    if f != [] && f[0] == c && f[1..] in fs {
      var i :| 0 <= i < |fs| && fs[i] == f[1..];
      assert f == [c] + fs[i];
      assert Prepend(c, fs)[i] == f;
    }
  }

  /** A filling is a spring that `s[0]` allows in front of a filling of the rest. */
  lemma InFillings(s: seq<Spring>, f: seq<Spring>)
    requires s != []
    ensures f in Fillings(s) <==>
      f != [] && ((f[0] == Good && s[0] != Bad) || (f[0] == Bad && s[0] != Good)) && f[1..] in Fillings(s[1..])
  {
    var rest := Fillings(s[1..]);
    assert Fillings(s) == (if s[0] != Bad then Prepend(Good, rest) else []) + (if s[0] != Good then Prepend(Bad, rest) else []);
    InPrepend(Good, rest, f);
    InPrepend(Bad, rest, f);
  }

  /** Every filling is as long as the record. */
  lemma {:induction false} FillingLength(s: seq<Spring>, f: seq<Spring>)
    requires f in Fillings(s)
    ensures |f| == |s|
    decreases |s|
  {
    if s == [] {
      assert Fillings(s) == [[]];
    } else {
      InFillings(s, f);
      FillingLength(s[1..], f[1..]);
    }
  }

  /** No filling is listed twice. */
  lemma {:induction false} FillingsDistinct(s: seq<Spring>)
    ensures Distinct(Fillings(s))
    decreases |s|
  {
    if s != [] {
      FillingsDistinct(s[1..]);
      var rest := Fillings(s[1..]);
      var good := if s[0] != Bad then Prepend(Good, rest) else [];
      var bad := if s[0] != Good then Prepend(Bad, rest) else [];
      forall i, j | 0 <= i < j < |good + bad|
        ensures (good + bad)[i] != (good + bad)[j]
      {
        var fi, fj := (good + bad)[i], (good + bad)[j];
        if j < |good| {
          assert fi[1..] == rest[i] && fj[1..] == rest[j];
        } else if i >= |good| {
          assert fi[1..] == rest[i - |good|] && fj[1..] == rest[j - |good|];
        } else {
          assert fi[0] == Good && fj[0] == Bad;
        }
      }
    }
  }

  lemma {:induction false} CountRunsAppend(a: seq<seq<Spring>>, b: seq<seq<Spring>>, k: nat, g: seq<nat>)
    ensures CountRuns(a + b, k, g) == CountRuns(a, k, g) + CountRuns(b, k, g)
    decreases |a|
  {
    if a != [] {
      assert (a + b)[0] == a[0] && (a + b)[1..] == a[1..] + b;
      CountRunsAppend(a[1..], b, k, g);
    } else {
      assert a + b == b;
    }
  }

  /** A bad spring in front joins the pending run. */
  lemma {:induction false} CountRunsBad(fs: seq<seq<Spring>>, k: nat, g: seq<nat>)
    ensures CountRuns(Prepend(Bad, fs), k, g) == CountRuns(fs, k + 1, g)
    decreases |fs|
  {
    if fs != [] {
      assert Bads(k) + ([Bad] + fs[0]) == Bads(k + 1) + fs[0];
      assert Prepend(Bad, fs)[1..] == Prepend(Bad, fs[1..]);
      CountRunsBad(fs[1..], k, g);
    }
  }

  lemma RunsGood(f: seq<Spring>)
    ensures Runs([Good] + f) == Runs(f)
  {
    assert ([Good] + f)[1..] == f;
  }

  /** A run of `k` bad springs ended by a good one. */
  lemma RunsBadsGood(k: nat, f: seq<Spring>)
    requires k >= 1
    ensures Runs(Bads(k) + [Good] + f) == [k] + Runs(f)
  {
    var h := Bads(k) + [Good] + f;
    LeadBadExact(k, [Good] + f);
    assert h == Bads(k) + ([Good] + f);
    assert h[k..] == [Good] + f;
    RunsGood(f);
  }

  lemma {:induction false} LeadBadExact(k: nat, f: seq<Spring>)
    requires f == [] || f[0] != Bad
    ensures LeadBad(Bads(k) + f) == k
    decreases k
  {
    if k > 0 {
      assert (Bads(k) + f)[1..] == Bads(k - 1) + f;
      LeadBadExact(k - 1, f);
    }
  }

  /** A good spring in front closes the pending run, which must then be the next group. */
  lemma {:induction false} CountRunsGood(fs: seq<seq<Spring>>, k: nat, g: seq<nat>)
    ensures CountRuns(Prepend(Good, fs), k, g) ==
      if k == 0 then CountRuns(fs, 0, g)
      else if g != [] && g[0] == k then CountRuns(fs, 0, g[1..])
      else 0
    decreases |fs|
  {
    if fs != [] {
      var f := fs[0];
      assert Prepend(Good, fs)[1..] == Prepend(Good, fs[1..]);
      CountRunsGood(fs[1..], k, g);
      if k == 0 {
        assert Bads(0) + ([Good] + f) == [Good] + f && Bads(0) + f == f;
        RunsGood(f);
      } else {
        assert Bads(k) + ([Good] + f) == Bads(k) + [Good] + f;
        RunsBadsGood(k, f);
        assert Bads(0) + f == f;
        if g != [] && g[0] == k {
          assert [k] + Runs(f) == g <==> Runs(f) == g[1..];
        }
      }
    }
  }

  /** The count splits on the first spring: made good, or made bad. */
  lemma MatchingStep(s: seq<Spring>, g: seq<nat>, k: nat)
    requires s != []
    ensures Matching(s, g, k) ==
      (if s[0] != Bad then
         (if k == 0 then Matching(s[1..], g, 0)
          else if g != [] && g[0] == k then Matching(s[1..], g[1..], 0)
          else 0)
       else 0)
      + (if s[0] != Good then Matching(s[1..], g, k + 1) else 0)
  {
    var rest := Fillings(s[1..]);
    var good := if s[0] != Bad then Prepend(Good, rest) else [];
    var bad := if s[0] != Good then Prepend(Bad, rest) else [];
    CountRunsAppend(good, bad, k, g);
    CountRunsGood(rest, k, g);
    CountRunsBad(rest, k, g);
  }

  /** Only the empty filling is left: its runs are the pending run alone. */
  lemma MatchingEnd(g: seq<nat>, k: nat)
    ensures Matching([], g, k) == if (k == 0 && g == []) || (k > 0 && g == [k]) then 1 else 0
  {
    var fs: seq<seq<Spring>> := [[]];
    assert Fillings([]) == fs;
    assert fs[1..] == [];
    assert CountRuns(fs, k, g) == if Runs(Bads(k) + []) == g then 1 else 0;
    assert Bads(k) + [] == Bads(k);
    RunsBads(k);
  }

  lemma RunsBads(k: nat)
    ensures Runs(Bads(k)) == if k == 0 then [] else [k]
  {
    if k > 0 {
      LeadBadExact(k, []);
      assert Bads(k) + [] == Bads(k);
      assert Bads(k)[0] == Bad;
      assert Bads(k)[k..] == [];
    }
  }

  /**
   * The same count computed spring by spring: a spring that can be good
   * closes the pending run of `k` bad springs (which must then be the next
   * group), and one that can be bad extends it.
   */
  function Stepwise(s: seq<Spring>, g: seq<nat>, k: nat): nat
    decreases |s|
  {
    if s == [] then (if (k == 0 && g == []) || (k > 0 && g == [k]) then 1 else 0)
    else
      (if s[0] != Bad then
         (if k == 0 then Stepwise(s[1..], g, 0)
          else if g != [] && g[0] == k then Stepwise(s[1..], g[1..], 0)
          else 0)
       else 0)
      + (if s[0] != Good then Stepwise(s[1..], g, k + 1) else 0)
  }

  /** Counting the fillings whose runs are the groups is the spring-by-spring count. */
  lemma {:induction false} MatchingIsStepwise(s: seq<Spring>, g: seq<nat>, k: nat)
    ensures Matching(s, g, k) == Stepwise(s, g, k)
    decreases |s|
  {
    if s == [] {
      MatchingEnd(g, k);
    } else {
      MatchingStep(s, g, k);
      MatchingIsStepwise(s[1..], g, 0);
      if g != [] {
        MatchingIsStepwise(s[1..], g[1..], 0);
      }
      MatchingIsStepwise(s[1..], g, k + 1);
    }
  }

  /** A pending run longer than the next group, or with no group left, matches nothing. */
  lemma {:induction false} Overrun(t: seq<Spring>, g: seq<nat>, k: nat)
    requires k > 0 && (g == [] || k > g[0])
    ensures Stepwise(t, g, k) == 0
    decreases |t|
  {
    if t != [] {
      Overrun(t[1..], g, k + 1);
    }
  }

  /** With all groups placed, one filling matches if no spring is known bad, none otherwise. */
  lemma {:induction false} MatchingNoGroups(t: seq<Spring>)
    ensures Stepwise(t, [], 0) == if forall i :: 0 <= i < |t| ==> t[i] != Bad then 1 else 0
    decreases |t|
  {
    if t != [] {
      Overrun(t[1..], [], 1);
      MatchingNoGroups(t[1..]);
      assert forall i :: 1 <= i < |t| ==> t[i] == t[1..][i - 1];
    }
  }

  /** Leading good springs match nothing and change nothing. */
  lemma {:induction false} MatchingSkipGood(springs: seq<Spring>, g: seq<nat>, si: nat)
    requires si <= |springs|
    ensures Stepwise(springs[si..], g, 0) == Stepwise(springs[SkipGood(springs, si)..], g, 0)
    decreases |springs| - si
  {
    if si < |springs| && springs[si] == Good {
      assert springs[si..][1..] == springs[si + 1..];
      MatchingSkipGood(springs, g, si + 1);
    }
  }

  /** `r` more springs of `t` can be bad and the one after them, if any, can be good. */
  predicate RunFits(t: seq<Spring>, r: nat)
  {
    r <= |t| && (forall p :: 0 <= p < r ==> t[p] != Good) && !(r < |t| && t[r] == Bad)
  }

  /** The springs of `t` after such a run and the spring that ends it. */
  function After(t: seq<Spring>, r: nat): seq<Spring>
  {
    t[if r + 1 <= |t| then r + 1 else |t|..]
  }

  lemma RunFitsStep(t: seq<Spring>, r: nat)
    requires t != [] && r >= 1
    ensures RunFits(t, r) <==> t[0] != Good && RunFits(t[1..], r - 1)
    ensures After(t, r) == After(t[1..], r - 1)
  {
    assert forall p :: 1 <= p < |t| ==> t[p] == t[1..][p - 1];
  }

  /** `Placeable` at `j` is a spring there that can be bad followed by a fitting run of the rest of the group. */
  lemma PlaceableRunFits(springs: seq<Spring>, j: nat, n: nat)
    requires j < |springs| && n >= 1
    ensures Placeable(springs, j, n) <==> springs[j] != Good && RunFits(springs[j + 1..], n - 1)
    ensures After(springs[j + 1..], n - 1) == springs[if j + n + 1 <= |springs| then j + n + 1 else |springs|..]
  {
    var u := springs[j + 1..];
    assert forall p :: 0 <= p < |u| ==> u[p] == springs[j + 1 + p];
    if Placeable(springs, j, n) {
      assert springs[j] != Good;
    }
  }

  /**
   * Inside a run of `k` bad springs (`1 <= k <= g[0]`), the filling must
   * continue with `g[0] - k` more springs that can be bad and then the end
   * or one that can be good.
   */
  lemma {:induction false} MatchingRun(t: seq<Spring>, g: seq<nat>, k: nat)
    requires g != [] && 1 <= k <= g[0]
    ensures Stepwise(t, g, k) == if RunFits(t, g[0] - k) then Stepwise(After(t, g[0] - k), g[1..], 0) else 0
    decreases |t|
  {
    if t == [] {
      MatchingRunEnd(g, k);
    } else if k == g[0] {
      MatchingRunClosed(t, g);
    } else {
      MatchingRun(t[1..], g, k + 1);
      RunFitsStep(t, g[0] - k);
    }
  }

  /** The springs end inside the run: it matches only when the run is the last group, complete. */
  lemma MatchingRunEnd(g: seq<nat>, k: nat)
    requires g != [] && 1 <= k <= g[0]
    ensures Stepwise([], g, k) == if RunFits([], g[0] - k) then Stepwise(After([], g[0] - k), g[1..], 0) else 0
  {
    assert After([], g[0] - k) == [];
    if k == g[0] {
      assert g == [k] <==> g[1..] == [];
    }
  }

  /** The run is complete: the next spring must be good, and the rest is matched against the remaining groups. */
  lemma MatchingRunClosed(t: seq<Spring>, g: seq<nat>)
    requires t != [] && g != [] && g[0] >= 1
    ensures Stepwise(t, g, g[0]) == if RunFits(t, 0) then Stepwise(After(t, 0), g[1..], 0) else 0
  {
    Overrun(t[1..], g, g[0] + 1);
    assert After(t, 0) == t[1..];
  }

  /** The count from a spring `j` that is not good: place the group there, or, if it is unknown, make it good. */
  lemma MatchingAt(springs: seq<Spring>, g: seq<nat>, j: nat)
    requires j < |springs| && springs[j] != Good && g != [] && g[0] >= 1
    ensures Stepwise(springs[j..], g, 0) ==
      (if Placeable(springs, j, g[0])
       then Stepwise(springs[if j + g[0] + 1 <= |springs| then j + g[0] + 1 else |springs|..], g[1..], 0)
       else 0)
      + (if springs[j] == Unknown then Stepwise(springs[j + 1..], g, 0) else 0)
  {
    var u := springs[j..];
    var v := springs[j + 1..];
    var e := if j + g[0] + 1 <= |springs| then j + g[0] + 1 else |springs|;
    assert u[1..] == v && u[0] == springs[j];
    var skipped := if springs[j] == Unknown then Stepwise(v, g, 0) else 0;
    assert Stepwise(u, g, 0) == skipped + Stepwise(v, g, 1);
    MatchingRun(v, g, 1);
    PlaceableRunFits(springs, j, g[0]);
    var placed := if Placeable(springs, j, g[0]) then Stepwise(springs[e..], g[1..], 0) else 0;
    assert Stepwise(v, g, 1) == placed;
  }

  /** The springs from index `i` on (none once `i` is past the end). */
  function From(springs: seq<Spring>, i: nat): seq<Spring>
  {
    springs[if i <= |springs| then i else |springs|..]
  }

  /** `MatchingAt` stated on `From` and on the groups from `gi` on. */
  lemma MatchingFromAt(springs: seq<Spring>, groups: seq<nat>, j: nat, gi: nat)
    requires gi < |groups| && groups[gi] >= 1 && j < |springs| && springs[j] != Good
    ensures Stepwise(From(springs, j), groups[gi..], 0) ==
        (if Placeable(springs, j, groups[gi]) then Stepwise(From(springs, j + groups[gi] + 1), groups[gi + 1..], 0) else 0)
        + (if springs[j] == Unknown then Stepwise(From(springs, j + 1), groups[gi..], 0) else 0)
  {
    var g := groups[gi..];
    assert From(springs, j) == springs[j..];
    assert g[0] == groups[gi] && g[1..] == groups[gi + 1..];
    MatchingAt(springs, g, j);
  }

  /** With every group placed, the recursion and the fillings agree. */
  lemma ArrangementsMatchingDone(springs: seq<Spring>, groups: seq<nat>, si: nat)
    ensures Arrangements(springs, groups, si, |groups|) == Stepwise(From(springs, si), groups[|groups|..], 0)
  {
    var t := From(springs, si);
    var from := if si <= |springs| then si else |springs|;
    MatchingNoGroups(t);
    assert forall i :: 0 <= i < |t| ==> t[i] == springs[from + i];
    assert groups[|groups|..] == [];
  }

  /** With groups left and only good springs ahead, neither the recursion nor the fillings find anything. */
  lemma ArrangementsMatchingPastEnd(springs: seq<Spring>, groups: seq<nat>, si: nat, gi: nat)
    requires gi < |groups| && SkipGood(springs, si) >= |springs|
    ensures Arrangements(springs, groups, si, gi) == 0
    ensures Stepwise(From(springs, si), groups[gi..], 0) == 0
  {
    var g := groups[gi..];
    var j := SkipGood(springs, si);
    if si <= |springs| {
      MatchingSkipGood(springs, g, si);
      assert springs[j..] == [];
    } else {
      assert springs[|springs|..] == [];
    }
  }

  /** Every group is a positive length, as in any parsed record. */
  predicate PositiveGroups(groups: seq<nat>)
  {
    forall i :: 0 <= i < |groups| ==> groups[i] > 0
  }

  /**
   * `c` follows the recursion of `count_arrangements` at `(s, g)`: with every
   * group placed it is one exactly when no bad spring is left; otherwise, at the
   * first spring that is not good, it adds the count with the group placed there
   * and, for an unknown spring, the count with that spring made good.
   */
  predicate FollowsRecursion(springs: seq<Spring>, groups: seq<nat>, c: (nat, nat) -> int, s: nat, g: nat)
    requires g <= |groups|
  {
    c(s, g) ==
      if g == |groups| then (if NoBad(springs, s) then 1 else 0)
      else
        var j := SkipGood(springs, s);
        if j >= |springs| then 0
        else
          (if Placeable(springs, j, groups[g]) then c(j + groups[g] + 1, g + 1) else 0)
          + (if springs[j] == Unknown then c(j + 1, g) else 0)
  }

  /** Two counts that both follow the recursion everywhere agree everywhere. */
  lemma {:induction false} SameRecursion(springs: seq<Spring>, groups: seq<nat>, a: (nat, nat) -> int, m: (nat, nat) -> int, s: nat, g: nat)
    requires g <= |groups|
    requires forall s': nat, g': nat :: g' <= |groups| ==> FollowsRecursion(springs, groups, a, s', g')
    requires forall s': nat, g': nat :: g' <= |groups| ==> FollowsRecursion(springs, groups, m, s', g')
    ensures a(s, g) == m(s, g)
    decreases |groups| - g, Remaining(springs, s)
  {
    assert FollowsRecursion(springs, groups, a, s, g);
    assert FollowsRecursion(springs, groups, m, s, g);
    if g < |groups| {
      var j := SkipGood(springs, s);
      if j < |springs| {
        if Placeable(springs, j, groups[g]) {
          SameRecursion(springs, groups, a, m, j + groups[g] + 1, g + 1);
        }
        if springs[j] == Unknown {
          SameRecursion(springs, groups, a, m, j + 1, g);
        }
      }
    }
  }

  /** `count_arrangements` as a count over `(si, gi)`. */
  function ArrangementsCount(springs: seq<Spring>, groups: seq<nat>): (nat, nat) -> int
  {
    (s: nat, g: nat) => if g <= |groups| then Arrangements(springs, groups, s, g) else 0
  }

  /** The matching fillings of the springs from `si` on for the groups from `gi` on, as a count over `(si, gi)`. */
  function MatchingCount(springs: seq<Spring>, groups: seq<nat>): (nat, nat) -> int
  {
    (s: nat, g: nat) => if g <= |groups| then Stepwise(From(springs, s), groups[g..], 0) else 0
  }

  /** At the first spring that is not good, `c` follows the recursion when its three values there split that way. */
  lemma FollowsByParts(springs: seq<Spring>, groups: seq<nat>, c: (nat, nat) -> int, s: nat, g: nat, v: int, vp: int, vu: int)
    requires g < |groups| && SkipGood(springs, s) < |springs|
    requires c(s, g) == v
    requires c(SkipGood(springs, s) + groups[g] + 1, g + 1) == vp
    requires c(SkipGood(springs, s) + 1, g) == vu
    requires v == (if Placeable(springs, SkipGood(springs, s), groups[g]) then vp else 0)
      + (if springs[SkipGood(springs, s)] == Unknown then vu else 0)
    ensures FollowsRecursion(springs, groups, c, s, g)
  {
  }

  lemma ArrangementsFollow(springs: seq<Spring>, groups: seq<nat>, s: nat, g: nat)
    requires g <= |groups|
    ensures FollowsRecursion(springs, groups, ArrangementsCount(springs, groups), s, g)
  {
    if g == |groups| {
      ArrangementsDone(springs, groups, s, g);
    } else if SkipGood(springs, s) >= |springs| {
      ArrangementsMatchingPastEnd(springs, groups, s, g);
    } else {
      ArrangementsFromSplit(springs, groups, s, g);
      ArrangementsSplitFollows(springs, groups, s, g);
    }
  }

  /** `count_arrangements` splits at the first spring that is not good. */
  lemma ArrangementsFromSplit(springs: seq<Spring>, groups: seq<nat>, s: nat, g: nat)
    requires g < |groups| && SkipGood(springs, s) < |springs|
    ensures var j := SkipGood(springs, s);
      Arrangements(springs, groups, s, g) ==
        (if Placeable(springs, j, groups[g]) then Arrangements(springs, groups, j + groups[g] + 1, g + 1) else 0)
        + (if springs[j] == Unknown then Arrangements(springs, groups, j + 1, g) else 0)
  {
    SkipArrangements(springs, groups, s, g);
    ArrangementsAt(springs, groups, SkipGood(springs, s), g);
  }

  /** The split of `count_arrangements` is the recursion step of `ArrangementsCount`. */
  lemma ArrangementsSplitFollows(springs: seq<Spring>, groups: seq<nat>, s: nat, g: nat)
    requires g < |groups| && SkipGood(springs, s) < |springs|
    requires var j := SkipGood(springs, s);
      Arrangements(springs, groups, s, g) ==
        (if Placeable(springs, j, groups[g]) then Arrangements(springs, groups, j + groups[g] + 1, g + 1) else 0)
        + (if springs[j] == Unknown then Arrangements(springs, groups, j + 1, g) else 0)
    ensures FollowsRecursion(springs, groups, ArrangementsCount(springs, groups), s, g)
  {
    var j := SkipGood(springs, s);
    FollowsByParts(springs, groups, ArrangementsCount(springs, groups), s, g, Arrangements(springs, groups, s, g),
      Arrangements(springs, groups, j + groups[g] + 1, g + 1), Arrangements(springs, groups, j + 1, g));
  }

  lemma MatchingFollows(springs: seq<Spring>, groups: seq<nat>, s: nat, g: nat)
    requires g <= |groups| && PositiveGroups(groups)
    ensures FollowsRecursion(springs, groups, MatchingCount(springs, groups), s, g)
  {
    if g == |groups| {
      ArrangementsMatchingDone(springs, groups, s);
      ArrangementsDone(springs, groups, s, g);
    } else if SkipGood(springs, s) >= |springs| {
      ArrangementsMatchingPastEnd(springs, groups, s, g);
    } else {
      MatchingFollowsAt(springs, groups, s, g);
    }
  }

  lemma MatchingFollowsAt(springs: seq<Spring>, groups: seq<nat>, s: nat, g: nat)
    requires g < |groups| && PositiveGroups(groups) && SkipGood(springs, s) < |springs|
    ensures FollowsRecursion(springs, groups, MatchingCount(springs, groups), s, g)
  {
    MatchingFromSplit(springs, groups, s, g);
    MatchingSplitFollows(springs, groups, s, g);
  }

  /** The split of the fillings is the recursion step of `MatchingCount`. */
  lemma MatchingSplitFollows(springs: seq<Spring>, groups: seq<nat>, s: nat, g: nat)
    requires g < |groups| && SkipGood(springs, s) < |springs|
    requires var j := SkipGood(springs, s);
      Stepwise(From(springs, s), groups[g..], 0) ==
        (if Placeable(springs, j, groups[g]) then Stepwise(From(springs, j + groups[g] + 1), groups[g + 1..], 0) else 0)
        + (if springs[j] == Unknown then Stepwise(From(springs, j + 1), groups[g..], 0) else 0)
    ensures FollowsRecursion(springs, groups, MatchingCount(springs, groups), s, g)
  {
    var j := SkipGood(springs, s);
    FollowsByParts(springs, groups, MatchingCount(springs, groups), s, g, Stepwise(From(springs, s), groups[g..], 0),
      Stepwise(From(springs, j + groups[g] + 1), groups[g + 1..], 0), Stepwise(From(springs, j + 1), groups[g..], 0));
  }

  /** The fillings from `s` on split as the recursion does at the first spring that is not good. */
  lemma MatchingFromSplit(springs: seq<Spring>, groups: seq<nat>, s: nat, g: nat)
    requires g < |groups| && groups[g] >= 1 && SkipGood(springs, s) < |springs|
    ensures var j := SkipGood(springs, s);
      Stepwise(From(springs, s), groups[g..], 0) ==
        (if Placeable(springs, j, groups[g]) then Stepwise(From(springs, j + groups[g] + 1), groups[g + 1..], 0) else 0)
        + (if springs[j] == Unknown then Stepwise(From(springs, j + 1), groups[g..], 0) else 0)
  {
    MatchingFromSkip(springs, groups[g..], s);
    MatchingFromAt(springs, groups, SkipGood(springs, s), g);
  }

  /** Skipping the leading good springs does not change the matching fillings. */
  lemma MatchingFromSkip(springs: seq<Spring>, g: seq<nat>, s: nat)
    requires SkipGood(springs, s) < |springs|
    ensures Stepwise(From(springs, s), g, 0) == Stepwise(From(springs, SkipGood(springs, s)), g, 0)
  {
    assert From(springs, s) == springs[s..] && From(springs, SkipGood(springs, s)) == springs[SkipGood(springs, s)..];
    MatchingSkipGood(springs, g, s);
  }

  /**
   * With every group positive (as in any parsed record), `count_arrangements(0, 0)`
   * is the number of ways to fill in the unknown springs so that the runs of
   * bad springs are exactly the groups.
   */
  lemma ArrangementsAreFillings(springs: seq<Spring>, groups: seq<nat>)
    requires PositiveGroups(groups)
    ensures Arrangements(springs, groups, 0, 0) == CountRuns(Fillings(springs), 0, groups)
  {
    var a, m := ArrangementsCount(springs, groups), MatchingCount(springs, groups);
    forall s: nat, g: nat | g <= |groups|
      ensures FollowsRecursion(springs, groups, a, s, g)
    {
      ArrangementsFollow(springs, groups, s, g);
    }
    forall s: nat, g: nat | g <= |groups|
      ensures FollowsRecursion(springs, groups, m, s, g)
    {
      MatchingFollows(springs, groups, s, g);
    }
    SameRecursion(springs, groups, a, m, 0, 0);
    assert From(springs, 0) == springs && groups[0..] == groups;
    MatchingIsStepwise(springs, groups, 0);
  }

  /** A record without unknowns has itself as its only filling. */
  lemma {:induction false} FillingsOfKnown(s: seq<Spring>)
    requires Known(s)
    ensures Fillings(s) == [s]
    decreases |s|
  {
    if s != [] {
      assert Known(s[1..]);
      FillingsOfKnown(s[1..]);
      assert [s[0]] + s[1..] == s;
    }
  }

  /** With positive groups, a record without unknown springs has one arrangement exactly when its bad runs are the groups. */
  lemma KnownArrangements(springs: seq<Spring>, groups: seq<nat>)
    requires Known(springs) && PositiveGroups(groups)
    ensures Arrangements(springs, groups, 0, 0) == if Runs(springs) == groups then 1 else 0
  {
    ArrangementsAreFillings(springs, groups);
    FillingsOfKnown(springs);
    var fs := [springs];
    assert fs[1..] == [];
    assert Bads(0) + springs == springs;
  }
}
