/** Subset-sum fallback of the equity rollforward: a depth-first search pruned by
    suffix sums (edgar_sec/apps/client/equity_rollforward.py:134-168).  Closing
    values are exact reals. */
module EquitySearch {
  import opened Common
  import opened Sorting

  datatype Member = Member(name: string, closing: real)

  /** Reconciled to the filed total: within 1. */
  predicate Reconciled(remaining: real) {
    Abs(remaining) <= 1.0
  }

  // ------------------------------------------------------- selections and order

  /** The sum of the values a decision sequence includes; values beyond it are
      left out. */
  function Picked(vs: seq<real>, p: seq<bool>): real
    requires |p| <= |vs|
  {
    if p == [] then 0.0 else (if p[0] then vs[0] else 0.0) + Picked(vs[1..], p[1..])
  }

  ghost predicate Fits(vs: seq<real>, target: real, p: seq<bool>) {
    |p| <= |vs| && Abs(target - Picked(vs, p)) <= 1.0
  }

  /** Some subset of the values sums to within 1 of the target. */
  ghost predicate SubsetFits(vs: seq<real>, target: real) {
    exists p :: |p| == |vs| && Fits(vs, target, p)
  }

  /** Include-first order on decisions: shorter before its extensions, and including
      a value before leaving it out. */
  predicate Precedes(p: seq<bool>, q: seq<bool>) {
    p == [] || (q != [] && ((p[0] && !q[0]) || (p[0] == q[0] && Precedes(p[1..], q[1..]))))
  }

  /** The search without pruning. */
  function FirstFit(vs: seq<real>, remaining: real): Option<seq<bool>> {
    if Reconciled(remaining) then Some([])
    else if vs == [] then None
    else
      match FirstFit(vs[1..], remaining - vs[0])
      case Some(p) => Some([true] + p)
      case None =>
        match FirstFit(vs[1..], remaining)
        case Some(p) => Some([false] + p)
        case None => None
  }

  /** The unpruned search finds the first fitting decisions, or nothing fits. */
  lemma {:induction false} FirstFitIsFirst(vs: seq<real>, remaining: real, q: seq<bool>)
    ensures FirstFit(vs, remaining).Some? ==> Fits(vs, remaining, FirstFit(vs, remaining).value)
    ensures Fits(vs, remaining, q) ==> FirstFit(vs, remaining).Some? && Precedes(FirstFit(vs, remaining).value, q)
    decreases |vs|
  {
    if Reconciled(remaining) || vs == [] {
    } else {
      var tail := if q == [] then [] else q[1..];
      FirstFitIsFirst(vs[1..], remaining - vs[0], tail);
      FirstFitIsFirst(vs[1..], remaining, tail);
      var r := FirstFit(vs, remaining);
      if r.Some? {
        assert r.value[1..] == (if r.value[0] then FirstFit(vs[1..], remaining - vs[0]).value
                                else FirstFit(vs[1..], remaining).value);
      }
    }
  }

  lemma {:induction false} PickedPadded(vs: seq<real>, p: seq<bool>)
    requires |p| <= |vs|
    ensures exists full :: |full| == |vs| && Picked(vs, full) == Picked(vs, p)
    decreases |vs|
  {
    if vs == [] {
      assert |p| == |vs|;
    } else {
      var head := if p == [] then false else p[0];
      var tail := if p == [] then [] else p[1..];
      PickedPadded(vs[1..], tail);
      var full :| |full| == |vs[1..]| && Picked(vs[1..], full) == Picked(vs[1..], tail);
      assert ([head] + full)[1..] == full;
      assert Picked(vs, [head] + full) == Picked(vs, p);
    }
  }

  /** The search succeeds exactly when some subset reconciles. */
  lemma FirstFitComplete(vs: seq<real>, target: real)
    ensures FirstFit(vs, target).Some? <==> SubsetFits(vs, target)
  {
    FirstFitIsFirst(vs, target, []);
    if FirstFit(vs, target).Some? {
      var p := FirstFit(vs, target).value;
      PickedPadded(vs, p);
      var full :| |full| == |vs| && Picked(vs, full) == Picked(vs, p);
      assert Fits(vs, target, full);
    }
    if SubsetFits(vs, target) {
      var p :| |p| == |vs| && Fits(vs, target, p);
      FirstFitIsFirst(vs, target, p);
    }
  }

  // --------------------------------------------------------------------- pruning

  function SumPositive(vs: seq<real>): real {
    if vs == [] then 0.0 else SumPositive(vs[1..]) + (if vs[0] > 0.0 then vs[0] else 0.0)
  }

  function SumNegative(vs: seq<real>): real {
    if vs == [] then 0.0 else SumNegative(vs[1..]) + (if vs[0] < 0.0 then vs[0] else 0.0)
  }

  /** No selection leaves the band between the negative and the positive sums. */
  lemma {:induction false} PickedInBand(vs: seq<real>, p: seq<bool>)
    requires |p| <= |vs|
    ensures SumNegative(vs) <= Picked(vs, p) <= SumPositive(vs)
    decreases |vs|
  {
    if vs != [] {
      PickedInBand(vs[1..], if p == [] then [] else p[1..]);
    }
  }

  predicate OutOfBand(remaining: real, positive: real, negative: real) {
    remaining - positive > 1.0 || remaining - negative < -1.0
  }

  /** Pruning loses nothing. */
  lemma PruningIsSafe(vs: seq<real>, remaining: real)
    requires OutOfBand(remaining, SumPositive(vs), SumNegative(vs))
    ensures FirstFit(vs, remaining).None?
  {
    FirstFitIsFirst(vs, remaining, []);
    if FirstFit(vs, remaining).Some? {
      PickedInBand(vs, FirstFit(vs, remaining).value);
    }
  }

  // ------------------------------------------------------------------ the search

  function Values(members: seq<Member>): seq<real> {
    seq(|members|, i requires 0 <= i < |members| => members[i].closing)
  }

  function Names(members: seq<Member>): seq<string> {
    seq(|members|, i requires 0 <= i < |members| => members[i].name)
  }

  /** The names a decision sequence includes, in order. */
  function ChosenNames(members: seq<Member>, p: seq<bool>): seq<string>
    requires |p| <= |members|
  {
    if p == [] then [] else (if p[0] then [members[0].name] else []) + ChosenNames(members[1..], p[1..])
  }

  /** `positive` and `negative` hold the suffix sums from `i` on. */
  ghost predicate HoldsSuffixes(values: seq<real>, positive: array<real>, negative: array<real>, i: nat)
    reads positive, negative
  {
    && positive.Length == negative.Length == |values| + 1
    && (forall j {:trigger positive[j]} :: i <= j <= |values| ==> positive[j] == SumPositive(values[j..]))
    && (forall j {:trigger negative[j]} :: i <= j <= |values| ==> negative[j] == SumNegative(values[j..]))
  }

  lemma SuffixStep(values: seq<real>, i: nat)
    requires i < |values|
    ensures SumPositive(values[i..]) == SumPositive(values[i + 1..]) + (if values[i] > 0.0 then values[i] else 0.0)
    ensures SumNegative(values[i..]) == SumNegative(values[i + 1..]) + (if values[i] < 0.0 then values[i] else 0.0)
  {
    assert values[i..][1..] == values[i + 1..];
  }

  /** The backward loop filling `suffix_pos` and `suffix_neg`. */
  method SuffixSums(values: seq<real>) returns (positive: array<real>, negative: array<real>)
    ensures fresh(positive) && fresh(negative) && positive != negative
    ensures HoldsSuffixes(values, positive, negative, 0)
  {
    positive := new real[|values| + 1](_ => 0.0);
    negative := new real[|values| + 1](_ => 0.0);
    var i := |values|;
    while i > 0
      invariant 0 <= i <= |values| && HoldsSuffixes(values, positive, negative, i)
    {
      i := i - 1;
      SuffixStep(values, i);
      positive[i] := positive[i + 1] + (if values[i] > 0.0 then values[i] else 0.0);
      negative[i] := negative[i + 1] + (if values[i] < 0.0 then values[i] else 0.0);
    }
  }

  /** The closure state of `dfs`: fixed tables and the shared list it edits. */
  class Search {
    const ordered: seq<Member>
    const suffixPositive: array<real>
    const suffixNegative: array<real>
    var chosen: seq<string>

    ghost predicate Valid()
      reads this, suffixPositive, suffixNegative
    {
      HoldsSuffixes(Values(ordered), suffixPositive, suffixNegative, 0)
    }

    constructor (ordered: seq<Member>)
      ensures Valid() && this.ordered == ordered && chosen == []
    {
      var positive, negative := SuffixSums(Values(ordered));
      this.ordered := ordered;
      this.suffixPositive, this.suffixNegative := positive, negative;
      this.chosen := [];
    }

    lemma SuffixesAt(index: nat)
      requires Valid() && index <= |ordered|
      ensures suffixPositive[index] == SumPositive(Values(ordered[index..]))
      ensures suffixNegative[index] == SumNegative(Values(ordered[index..]))
    {
      assert Values(ordered)[index..] == Values(ordered[index..]);
    }

    /** `dfs`: appends the names of the first fitting decisions, or leaves the shared
        list as it was. */
    method Dfs(index: nat, remaining: real) returns (found: bool)
      requires Valid() && index <= |ordered|
      modifies this`chosen
      ensures SearchOutcome(ordered[index..], remaining, old(chosen), chosen, found)
      decreases |ordered| - index
    {
      ghost var rest := ordered[index..];
      if Abs(remaining) <= 1.0 {
        return true;
      }
      if index == |ordered| {
        return false;
      }
      if remaining - suffixPositive[index] > 1.0 || remaining - suffixNegative[index] < -1.0 {
        SuffixesAt(index);
        PrunedOutcome(rest, remaining, chosen);
        return false;
      }
      assert rest[0] == ordered[index] && rest[1..] == ordered[index + 1..];
      ghost var before := chosen;
      chosen := chosen + [ordered[index].name];
      found := Dfs(index + 1, remaining - ordered[index].closing);
      if found {
        IncludedOutcome(rest, remaining, before, chosen);
        return true;
      }
      OutcomeWhenNotFound(rest[1..], remaining - ordered[index].closing, before + [ordered[index].name], chosen);
      ghost var middle := chosen;
      chosen := chosen[..|chosen| - 1];
      assert chosen == before;
      found := Dfs(index + 1, remaining);
      SkippedOutcome(rest, remaining, before, middle, chosen, found);
    }
  }

  /** What one call does to the shared list: the unpruned search's first decisions are
      appended, or nothing is. */
  ghost predicate SearchOutcome(members: seq<Member>, remaining: real, before: seq<string>, after: seq<string>,
                                found: bool) {
    match FirstFit(Values(members), remaining)
    case None => !found && after == before
    case Some(p) => found && |p| <= |members| && after == before + ChosenNames(members, p)
  }

  lemma PrunedOutcome(members: seq<Member>, remaining: real, chosen: seq<string>)
    requires OutOfBand(remaining, SumPositive(Values(members)), SumNegative(Values(members)))
    ensures SearchOutcome(members, remaining, chosen, chosen, false)
  {
    PruningIsSafe(Values(members), remaining);
  }

  lemma FirstFitStep(members: seq<Member>)
    requires members != []
    ensures Values(members) == [members[0].closing] + Values(members[1..])
  {}

  lemma OutcomeWhenNotFound(members: seq<Member>, remaining: real, before: seq<string>, after: seq<string>)
    requires SearchOutcome(members, remaining, before, after, false)
    ensures after == before
  {}

  lemma IncludedOutcome(members: seq<Member>, remaining: real, before: seq<string>, after: seq<string>)
    requires members != [] && !Reconciled(remaining)
    requires SearchOutcome(members[1..], remaining - members[0].closing, before + [members[0].name], after, true)
    ensures SearchOutcome(members, remaining, before, after, true)
  {
    FirstFitStep(members);
    var p := FirstFit(Values(members[1..]), remaining - members[0].closing).value;
    assert Values(members)[1..] == Values(members[1..]);
    IncludedNames(members, p);
    assert FirstFit(Values(members), remaining) == Some([true] + p);
  }

  lemma SkippedOutcome(members: seq<Member>, remaining: real, before: seq<string>, middle: seq<string>,
                       after: seq<string>, found: bool)
    requires members != [] && !Reconciled(remaining)
    requires SearchOutcome(members[1..], remaining - members[0].closing, before + [members[0].name], middle, false)
    requires SearchOutcome(members[1..], remaining, before, after, found)
    ensures SearchOutcome(members, remaining, before, after, found)
  {
    FirstFitStep(members);
    assert Values(members)[1..] == Values(members[1..]);
    if found {
      var p := FirstFit(Values(members[1..]), remaining).value;
      SkippedNames(members, p);
      assert FirstFit(Values(members), remaining) == Some([false] + p);
    }
  }

  lemma IncludedNames(members: seq<Member>, p: seq<bool>)
    requires |p| < |members|
    ensures ChosenNames(members, [true] + p) == [members[0].name] + ChosenNames(members[1..], p)
  {
    assert ([true] + p)[1..] == p;
  }

  lemma SkippedNames(members: seq<Member>, p: seq<bool>)
    requires |p| < |members|
    ensures ChosenNames(members, [false] + p) == ChosenNames(members[1..], p)
  {
    assert ([false] + p)[1..] == p;
  }

  // ------------------------------------------------------------ the fallback

  /** Largest magnitude first, then by name. */
  predicate SearchOrder(a: Member, b: Member) {
    Abs(a.closing) > Abs(b.closing) || (Abs(a.closing) == Abs(b.closing) && StringLe(a.name, b.name))
  }

  lemma SearchOrderTotal()
    ensures TotalPreorder(SearchOrder)
  {
    forall a, b ensures SearchOrder(a, b) || SearchOrder(b, a) {
      StringLeTotal(a.name, b.name);
    }
    forall a, b, c | SearchOrder(a, b) && SearchOrder(b, c) ensures SearchOrder(a, c) {
      if StringLe(a.name, b.name) && StringLe(b.name, c.name) {
        StringLeTransitive(a.name, b.name, c.name);
      }
    }
  }

  /** What the search order means: larger magnitudes first, equal ones by name. */
  lemma LargestFirst(ordered: seq<Member>, i: nat, j: nat)
    requires SortedBy(SearchOrder, ordered) && i < j < |ordered|
    ensures Abs(ordered[i].closing) >= Abs(ordered[j].closing)
    ensures Abs(ordered[i].closing) == Abs(ordered[j].closing) ==> StringLe(ordered[i].name, ordered[j].name)
  {
    assert SearchOrder(ordered[i], ordered[j]);
  }

  /** A member larger than every other, or as large and earlier by name. */
  ghost predicate Leads(members: seq<Member>, m: Member) {
    m in members && forall o :: o in members && o != m ==>
      || Abs(m.closing) > Abs(o.closing)
      || (Abs(m.closing) == Abs(o.closing) && m.name != o.name && StringLe(m.name, o.name))
  }

  lemma LeaderIsFirst(members: seq<Member>, ordered: seq<Member>, m: Member)
    requires multiset(ordered) == multiset(members) && SortedBy(SearchOrder, ordered) && Leads(members, m)
    ensures ordered != [] && ordered[0] == m
  {
    PermutationMembers(ordered, members);
    var k :| 0 <= k < |ordered| && ordered[k] == m;
    assert ordered[0] in members;
    if k > 0 { LargestFirst(ordered, 0, k); }
    StringLeTotal(ordered[0].name, m.name);
  }

  lemma AloneFits(ordered: seq<Member>, target: real)
    requires ordered != [] && Abs(target - ordered[0].closing) <= 1.0
    ensures FirstFit(Values(ordered), target).Some?
  {
    var q := [true];
    assert q[1..] == [] && Picked(Values(ordered), q) == Values(ordered)[0];
    FirstFitIsFirst(Values(ordered), target, q);
  }

  /** A first member that reconciles alone is the whole answer, unless nothing is needed. */
  lemma FirstAlone(ordered: seq<Member>, target: real, p: seq<bool>)
    requires ordered != [] && Abs(target) > 1.0 && Abs(target - ordered[0].closing) <= 1.0
    requires IsFirstReconciling(ordered, target, p) && |p| <= |ordered|
    ensures ChosenNames(ordered, p) == [ordered[0].name]
  {
    var vs := Values(ordered);
    var q := [true];
    assert q[1..] == [] && Picked(vs, q) == vs[0];
    assert Fits(vs, target, q);
    assert Precedes(p, q) && p != [];
    OnlyOneBefore(p);
    assert ChosenNames(ordered, p) == [ordered[0].name] + ChosenNames(ordered[1..], []);
  }

  lemma OnlyOneBefore(p: seq<bool>)
    requires p != [] && Precedes(p, [true])
    ensures p == [true] && p[1..] == []
  {
    assert [true][1..] == [];
  }

  lemma SubsetFitsCons(v: real, vs: seq<real>, target: real)
    ensures SubsetFits([v] + vs, target) <==> SubsetFits(vs, target - v) || SubsetFits(vs, target)
  {
    FirstFitComplete([v] + vs, target);
    if SubsetFits([v] + vs, target) {
      var p :| |p| == |[v] + vs| && Fits([v] + vs, target, p);
      assert ([v] + vs)[1..] == vs;
      assert Fits(vs, if p[0] then target - v else target, p[1..]);
    }
    if SubsetFits(vs, target - v) {
      var p :| |p| == |vs| && Fits(vs, target - v, p);
      assert ([true] + p)[1..] == p && ([v] + vs)[1..] == vs;
      assert Fits([v] + vs, target, [true] + p);
    }
    if SubsetFits(vs, target) {
      var p :| |p| == |vs| && Fits(vs, target, p);
      assert ([false] + p)[1..] == p && ([v] + vs)[1..] == vs;
      assert Fits([v] + vs, target, [false] + p);
    }
  }

  lemma SwapKeepsSubsets(u: real, v: real, vs: seq<real>, target: real)
    ensures SubsetFits([u] + ([v] + vs), target) <==> SubsetFits([v] + ([u] + vs), target)
  {
    SubsetFitsCons(u, [v] + vs, target);
    SubsetFitsCons(v, [u] + vs, target);
    SubsetFitsCons(v, vs, target);
    SubsetFitsCons(v, vs, target - u);
    SubsetFitsCons(u, vs, target);
    SubsetFitsCons(u, vs, target - v);
    assert target - u - v == target - v - u;
  }

  /** Lists that reconcile alike still do with one more value in front. */
  lemma FrontKeepsSubsets(v: real, a: seq<real>, b: seq<real>, target: real)
    requires SubsetFits(a, target) <==> SubsetFits(b, target)
    requires SubsetFits(a, target - v) <==> SubsetFits(b, target - v)
    ensures SubsetFits([v] + a, target) <==> SubsetFits([v] + b, target)
  {
    SubsetFitsCons(v, a, target);
    SubsetFitsCons(v, b, target);
  }

  lemma ValuesCons(m: Member, members: seq<Member>)
    ensures Values([m] + members) == [m.closing] + Values(members)
  {}

  /** Whether a subset reconciles does not depend on the order of the members. */
  lemma {:induction false} InsertKeepsSubsets(x: Member, s: seq<Member>, target: real)
    ensures SubsetFits(Values(Insert(SearchOrder, x, s)), target) <==> SubsetFits(Values([x] + s), target)
    decreases |s|
  {
    if s == [] || SearchOrder(x, s[0]) {
    } else {
      var y, rest := s[0], s[1..];
      var inserted := Insert(SearchOrder, x, rest);
      InsertKeepsSubsets(x, rest, target);
      InsertKeepsSubsets(x, rest, target - y.closing);
      FrontKeepsSubsets(y.closing, Values(inserted), Values([x] + rest), target);
      ValuesCons(y, inserted);
      ValuesCons(x, rest);
      ValuesCons(y, rest);
      ValuesCons(x, s);
      assert s == [y] + rest;
      SwapKeepsSubsets(x.closing, y.closing, Values(rest), target);
    }
  }

  lemma {:induction false} SortKeepsSubsets(s: seq<Member>, target: real)
    ensures SubsetFits(Values(Sort(SearchOrder, s)), target) <==> SubsetFits(Values(s), target)
    decreases |s|
  {
    if s != [] {
      var x, rest, sorted := s[0], s[1..], Sort(SearchOrder, s[1..]);
      InsertKeepsSubsets(x, sorted, target);
      ValuesCons(x, sorted);
      ValuesCons(x, rest);
      assert s == [x] + rest;
      SortKeepsSubsets(rest, target);
      SortKeepsSubsets(rest, target - x.closing);
      FrontKeepsSubsets(x.closing, Values(sorted), Values(rest), target);
    }
  }

  /** `p` decides which of the members, largest first, are returned, and is the first
      decision sequence in include-first order that reconciles. */
  ghost predicate IsFirstReconciling(ordered: seq<Member>, target: real, p: seq<bool>) {
    && Fits(Values(ordered), target, p)
    && (forall q :: Fits(Values(ordered), target, q) ==> Precedes(p, q))
  }

  /** `_equity_antichain_fallback`: the first reconciling members, largest magnitude
      first, when some subset of the members reconciles; otherwise all of them. */
  method AntichainFallback(members: seq<Member>, target: Option<real>)
    returns (names: seq<string>, ghost ordered: seq<Member>, ghost p: seq<bool>)
    ensures multiset(ordered) == multiset(members) && SortedBy(SearchOrder, ordered)
    ensures target.None? ==> names == Names(members)
    ensures target.Some? && SubsetFits(Values(members), target.value) ==>
              IsFirstReconciling(ordered, target.value, p) && |p| <= |ordered| && names == ChosenNames(ordered, p)
    ensures target.Some? && !SubsetFits(Values(members), target.value) ==> names == Names(members)
    ensures forall i, j :: 0 <= i < j < |ordered| ==>
              && Abs(ordered[i].closing) >= Abs(ordered[j].closing)
              && (Abs(ordered[i].closing) == Abs(ordered[j].closing) ==> StringLe(ordered[i].name, ordered[j].name))
    ensures target.Some? && Abs(target.value) > 1.0 ==>
              ordered != [] && Abs(target.value - ordered[0].closing) <= 1.0 ==> names == [ordered[0].name]
    ensures target.Some? && Abs(target.value) > 1.0 ==>
              forall m: Member :: Leads(members, m) && Abs(target.value - m.closing) <= 1.0 ==> names == [m.name]
  {
    var sorted := Sort(SearchOrder, members);
    SearchOrderTotal();
    SortIsSorted(SearchOrder, members);
    ordered, p := sorted, [];
    forall i, j | 0 <= i < j < |ordered|
      ensures Abs(ordered[i].closing) >= Abs(ordered[j].closing)
      ensures Abs(ordered[i].closing) == Abs(ordered[j].closing) ==> StringLe(ordered[i].name, ordered[j].name)
    {
      LargestFirst(ordered, i, j);
    }
    forall m | Leads(members, m) ensures ordered != [] && ordered[0] == m {
      LeaderIsFirst(members, ordered, m);
    }
    if target.None? {
      return Names(members), ordered, p;
    }
    var search := new Search(sorted);
    var found := search.Dfs(0, target.value);
    ghost var vs := Values(sorted);
    assert vs[0..] == vs && sorted[0..] == sorted;
    SortKeepsSubsets(members, target.value);
    FirstFitComplete(vs, target.value);
    if ordered != [] && Abs(target.value - ordered[0].closing) <= 1.0 {
      AloneFits(ordered, target.value);
    }
    if found {
      p := FirstFit(vs, target.value).value;
      forall q ensures Fits(vs, target.value, p) && (Fits(vs, target.value, q) ==> Precedes(p, q)) {
        FirstFitIsFirst(vs, target.value, q);
      }
      names := search.chosen;
      if Abs(target.value) > 1.0 && ordered != [] && Abs(target.value - ordered[0].closing) <= 1.0 {
        FirstAlone(ordered, target.value, p);
      }
    } else {
      names := Names(members);
    }
  }
}
