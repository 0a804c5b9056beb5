/** Inclusive integer intervals with open bounds, and labelled runs of them:
    the timeline algebra of edgar_sec/domain/filing_catalog/filters.py.  Days
    (as ordinals) and years are both integers here. */
module Intervals {
  import opened Common
  import opened Sorting

  /** `None` is an open bound. */
  datatype Interval = Interval(lo: Option<int>, hi: Option<int>)

  /** An interval that does not start after it ends. */
  predicate Ordered(iv: Interval) {
    iv.lo.Some? && iv.hi.Some? ==> iv.lo.value <= iv.hi.value
  }

  predicate Covers(iv: Interval, x: int) {
    (iv.lo.Some? ==> iv.lo.value <= x) && (iv.hi.Some? ==> x <= iv.hi.value)
  }

  ghost predicate CoversAny(ivs: seq<Interval>, x: int) {
    exists i :: 0 <= i < |ivs| && Covers(ivs[i], x)
  }

  ghost predicate AllOrdered(ivs: seq<Interval>) {
    forall i :: 0 <= i < |ivs| ==> Ordered(ivs[i])
  }

  // ------------------------------------------------------------ labelled runs

  /** A stretch of the timeline carrying one label. */
  datatype Run<T> = Run(span: Interval, tag: T)

  /** `b` starts after `a` ends, and if they abut they carry different labels. */
  predicate Follows<T(==)>(a: Run<T>, b: Run<T>) {
    && a.span.hi.Some? && b.span.lo.Some?
    && a.span.hi.value < b.span.lo.value
    && (a.span.hi.value + 1 == b.span.lo.value ==> a.tag != b.tag)
  }

  /** Maximal runs in timeline order: the canonical form of a labelling. */
  ghost predicate CanonicalRuns<T>(rs: seq<Run<T>>) {
    && (forall i :: 0 <= i < |rs| ==> Ordered(rs[i].span))
    && (forall i, j :: 0 <= i && j == i + 1 && j < |rs| ==> Follows(rs[i], rs[j]))
  }

  /** The label a run list gives to one point of the timeline. */
  function LabelAt<T>(rs: seq<Run<T>>, x: int): Option<T> {
    if rs == [] then None
    else if Covers(rs[0].span, x) then Some(rs[0].tag)
    else LabelAt(rs[1..], x)
  }

  lemma CanonicalTail<T>(rs: seq<Run<T>>)
    requires CanonicalRuns(rs) && rs != []
    ensures CanonicalRuns(rs[1..])
  {
    var t := rs[1..];
    forall i, j | 0 <= i && j == i + 1 && j < |t| ensures Follows(t[i], t[j]) {
      assert t[i] == rs[i + 1] && t[j] == rs[j + 1];
      assert Follows(rs[i + 1], rs[j + 1]);
    }
  }

  /** Nothing before the first run is labelled. */
  lemma {:induction false} UnlabelledBefore<T>(rs: seq<Run<T>>, x: int)
    requires CanonicalRuns(rs)
    requires rs != [] ==> rs[0].span.lo.Some? && x < rs[0].span.lo.value
    ensures LabelAt(rs, x) == None
  {
    if |rs| > 1 {
      assert Follows(rs[0], rs[1]);
    }
    if rs != [] {
      CanonicalTail(rs);
      UnlabelledBefore(rs[1..], x);
    }
  }

  /** Just past the end of the first run lies no run with its label. */
  lemma FirstRunEnds<T>(rs: seq<Run<T>>, x: int)
    requires CanonicalRuns(rs) && rs != []
    requires rs[0].span.hi.Some? && x == rs[0].span.hi.value + 1
    ensures LabelAt(rs, x) != Some(rs[0].tag)
  {
    CanonicalTail(rs);
    if |rs| > 1 {
      assert Follows(rs[0], rs[1]);
      if x < rs[1].span.lo.value {
        UnlabelledBefore(rs[1..], x);
      }
    }
  }

  /** A point inside a run but before a given bound (used to separate starts). */
  lemma PointBelow<T>(r: Run<T>, below: int) returns (x: int)
    requires Ordered(r.span)
    requires r.span.lo.None? || r.span.lo.value < below
    ensures Covers(r.span, x) && x < below
  {
    x := if r.span.lo.Some? then r.span.lo.value
         else if r.span.hi.Some? && r.span.hi.value < below then r.span.hi.value
         else below - 1;
  }

  lemma FirstStartsEqual<T>(a: seq<Run<T>>, b: seq<Run<T>>)
    requires CanonicalRuns(a) && CanonicalRuns(b) && a != []
    requires forall x :: LabelAt(a, x) == LabelAt(b, x)
    ensures b != [] && (b[0].span.lo.Some? ==> a[0].span.lo.Some? && b[0].span.lo.value <= a[0].span.lo.value)
  {
    if b == [] {
      var x := PointBelow(a[0], if a[0].span.lo.Some? then a[0].span.lo.value + 1 else 0);
      UnlabelledBefore(b, x);
      assert false;
    } else if b[0].span.lo.Some? && (a[0].span.lo.None? || a[0].span.lo.value < b[0].span.lo.value) {
      var x := PointBelow(a[0], b[0].span.lo.value);
      UnlabelledBefore(b, x);
      assert false;
    }
  }

  lemma FirstEndsEqual<T>(a: seq<Run<T>>, b: seq<Run<T>>)
    requires CanonicalRuns(a) && CanonicalRuns(b) && a != [] && b != []
    requires a[0].span.lo == b[0].span.lo && a[0].tag == b[0].tag
    requires forall x :: LabelAt(a, x) == LabelAt(b, x)
    ensures a[0].span.hi.Some? ==> b[0].span.hi.Some? && b[0].span.hi.value <= a[0].span.hi.value
  {
    if a[0].span.hi.Some? && (b[0].span.hi.None? || a[0].span.hi.value < b[0].span.hi.value) {
      var x := a[0].span.hi.value + 1;
      FirstRunEnds(a, x);
      assert Covers(b[0].span, x);
    }
  }

  /** Two canonical run lists that label every point alike are the same list. */
  lemma {:induction false} CanonicalRunsUnique<T>(a: seq<Run<T>>, b: seq<Run<T>>)
    requires CanonicalRuns(a) && CanonicalRuns(b)
    requires forall x :: LabelAt(a, x) == LabelAt(b, x)
    ensures a == b
    decreases |a|
  {
    if a == [] {
      if b != [] {
        FirstStartsEqual(b, a);
      }
    } else {
      FirstStartsEqual(a, b);
      FirstStartsEqual(b, a);
      assert a[0].span.lo == b[0].span.lo;
      FirstLabelsEqual(a, b);
      FirstEndsEqual(a, b);
      FirstEndsEqual(b, a);
      assert a[0] == b[0];
      CanonicalTail(a);
      CanonicalTail(b);
      forall x ensures LabelAt(a[1..], x) == LabelAt(b[1..], x) {
        assert LabelAt(a, x) == LabelAt(b, x);
        if Covers(a[0].span, x) {
          TailClear(a, x);
          TailClear(b, x);
        }
      }
      CanonicalRunsUnique(a[1..], b[1..]);
      assert a == [a[0]] + a[1..] && b == [b[0]] + b[1..];
    }
  }

  lemma FirstLabelsEqual<T>(a: seq<Run<T>>, b: seq<Run<T>>)
    requires CanonicalRuns(a) && CanonicalRuns(b) && a != [] && b != []
    requires a[0].span.lo == b[0].span.lo
    requires forall x :: LabelAt(a, x) == LabelAt(b, x)
    ensures a[0].tag == b[0].tag
  {
    var bound := if a[0].span.lo.Some? then a[0].span.lo.value + 1
                 else if a[0].span.hi.Some? then (if b[0].span.hi.Some? && b[0].span.hi.value < a[0].span.hi.value
                                                  then b[0].span.hi.value else a[0].span.hi.value)
                 else if b[0].span.hi.Some? then b[0].span.hi.value else 0;
    var x := PointBelow(a[0], bound);
    assert Covers(a[0].span, x) && Covers(b[0].span, x);
    assert LabelAt(a, x) == LabelAt(b, x);
  }

  /** A point of the first run carries no label in the rest. */
  lemma TailClear<T>(rs: seq<Run<T>>, x: int)
    requires CanonicalRuns(rs) && rs != [] && Covers(rs[0].span, x)
    ensures LabelAt(rs[1..], x) == None
  {
    CanonicalTail(rs);
    if |rs| > 1 {
      assert Follows(rs[0], rs[1]);
      UnlabelledBefore(rs[1..], x);
    }
  }

  // ------------------------------------------------------- canonical intervals

  /** Disjoint, non-abutting intervals in timeline order. */
  ghost predicate CanonicalIntervals(ivs: seq<Interval>) {
    && AllOrdered(ivs)
    && (forall i, j :: 0 <= i && j == i + 1 && j < |ivs| ==> Apart(ivs[i], ivs[j]))
  }

  predicate Apart(a: Interval, b: Interval) {
    a.hi.Some? && b.lo.Some? && a.hi.value + 1 < b.lo.value
  }

  /** The intervals as runs that all carry the one label there is. */
  function AsRuns(ivs: seq<Interval>): (rs: seq<Run<()>>) {
    seq(|ivs|, i requires 0 <= i < |ivs| => Run(ivs[i], ()))
  }

  lemma {:induction false} LabelAtAsRuns(ivs: seq<Interval>, x: int)
    ensures LabelAt(AsRuns(ivs), x) == if CoversAny(ivs, x) then Some(()) else None
  {
    if ivs == [] {
    } else {
      LabelAtAsRuns(ivs[1..], x);
      assert AsRuns(ivs)[1..] == AsRuns(ivs[1..]);
      assert ivs == [ivs[0]] + ivs[1..];
      if CoversAny(ivs[1..], x) {
        var i :| 0 <= i < |ivs[1..]| && Covers(ivs[1..][i], x);
        assert Covers(ivs[i + 1], x);
      }
    }
  }

  /** Canonical interval lists covering the same points are the same list. */
  lemma CanonicalIntervalsUnique(a: seq<Interval>, b: seq<Interval>)
    requires CanonicalIntervals(a) && CanonicalIntervals(b)
    requires forall x :: CoversAny(a, x) <==> CoversAny(b, x)
    ensures a == b
  {
    IntervalRunsCanonical(a);
    IntervalRunsCanonical(b);
    forall x ensures LabelAt(AsRuns(a), x) == LabelAt(AsRuns(b), x) {
      LabelAtAsRuns(a, x);
      LabelAtAsRuns(b, x);
    }
    CanonicalRunsUnique(AsRuns(a), AsRuns(b));
    assert |AsRuns(a)| == |a| && |AsRuns(b)| == |b|;
    forall i | 0 <= i < |a| ensures a[i] == b[i] {
      assert AsRuns(a)[i].span == AsRuns(b)[i].span;
    }
  }

  lemma IntervalRunsCanonical(ivs: seq<Interval>)
    requires CanonicalIntervals(ivs)
    ensures CanonicalRuns(AsRuns(ivs))
  {
    var rs := AsRuns(ivs);
    forall i, j | 0 <= i && j == i + 1 && j < |rs| ensures Follows(rs[i], rs[j]) {
      assert Apart(ivs[i], ivs[j]);
    }
  }

  // ------------------------------------------------------------------ merging

  /** `_shift`: one step up, saturating at the domain's last value. */
  function Shift(value: int, top: Option<int>): int {
    if top == Some(value) then value else value + 1
  }

  predicate OverlapsOrTouches(end: Option<int>, nextStart: Option<int>, top: Option<int>) {
    end.None? || nextStart.None? || nextStart.value <= Shift(end.value, top)
  }

  predicate StartsNoLater(a: Interval, b: Interval) {
    a.lo.None? || (b.lo.Some? && a.lo.value <= b.lo.value)
  }

  /** `_interval_sort_key`: an open bound sorts ahead of every closed one. */
  predicate SortKeyLe(a: Interval, b: Interval) {
    if a.lo == b.lo then a.hi.None? || (b.hi.Some? && a.hi.value <= b.hi.value)
    else StartsNoLater(a, b)
  }

  /** Every bound is a value of the domain, which may have a last value. */
  predicate Within(iv: Interval, top: Option<int>) {
    top.Some? ==> (iv.lo.Some? ==> iv.lo.value <= top.value) && (iv.hi.Some? ==> iv.hi.value <= top.value)
  }

  lemma CoversAnyAppend(ivs: seq<Interval>, iv: Interval, x: int)
    ensures CoversAny(ivs + [iv], x) <==> CoversAny(ivs, x) || Covers(iv, x)
  {
    var t := ivs + [iv];
    if CoversAny(ivs, x) {
      var i :| 0 <= i < |ivs| && Covers(ivs[i], x);
      assert Covers(t[i], x);
    }
    if Covers(iv, x) {
      assert Covers(t[|ivs|], x);
    }
  }

  lemma CoversAnyPermutation(a: seq<Interval>, b: seq<Interval>, x: int)
    requires forall iv :: iv in a <==> iv in b
    ensures CoversAny(a, x) <==> CoversAny(b, x)
  {
    if CoversAny(a, x) {
      var i :| 0 <= i < |a| && Covers(a[i], x);
      assert a[i] in b;
    }
    if CoversAny(b, x) {
      var i :| 0 <= i < |b| && Covers(b[i], x);
      assert b[i] in a;
    }
  }

  /** Growing the pending interval keeps the merged list apart from it. */
  lemma PendingGrows(merged: seq<Interval>, before: Interval, after: Interval)
    requires CanonicalIntervals(merged + [before]) && Ordered(after) && after.lo == before.lo
    ensures CanonicalIntervals(merged + [after])
  {
    var s, t := merged + [before], merged + [after];
    forall i, j | 0 <= i && j == i + 1 && j < |t| ensures Apart(t[i], t[j]) {
      assert Apart(s[i], s[j]);
    }
    forall i | 0 <= i < |t| ensures Ordered(t[i]) {
      assert i < |merged| ==> t[i] == s[i];
    }
  }

  lemma PendingCloses(merged: seq<Interval>, closed: Interval, next: Interval)
    requires CanonicalIntervals(merged + [closed]) && Ordered(next) && Apart(closed, next)
    ensures CanonicalIntervals(merged + [closed] + [next])
  {
    var s, t := merged + [closed], merged + [closed] + [next];
    forall i, j | 0 <= i && j == i + 1 && j < |t| ensures Apart(t[i], t[j]) {
      if j < |s| {
        assert Apart(s[i], s[j]);
      }
    }
  }

  /** The later of two ends; an open end wins. */
  function LaterEnd(a: Option<int>, b: Option<int>): Option<int> {
    if a.None? || b.None? then None else if b.value > a.value then b else a
  }

  /** Absorbing a touching interval that starts no earlier covers exactly both. */
  lemma AbsorbCovers(current: Interval, next: Interval, grown: Interval, top: Option<int>, x: int)
    requires Ordered(current) && Ordered(next) && Within(current, top) && Within(next, top)
    requires StartsNoLater(current, next) && OverlapsOrTouches(current.hi, next.lo, top)
    requires grown == Interval(current.lo, LaterEnd(current.hi, next.hi))
    ensures Covers(grown, x) <==> Covers(current, x) || Covers(next, x)
  {
  }

  /** Carries the loop's coverage invariant over one more interval. */
  lemma CoverageStep(covered: seq<Interval>, before: Interval, merged: seq<Interval>, current: Interval,
                     prefix: seq<Interval>, next: Interval, top: Option<int>)
    requires forall x :: CoversAny(covered + [before], x) <==> CoversAny(prefix, x)
    requires Ordered(before) && Ordered(next) && Within(before, top) && Within(next, top) && StartsNoLater(before, next)
    requires if OverlapsOrTouches(before.hi, next.lo, top)
             then merged == covered && current == Interval(before.lo, LaterEnd(before.hi, next.hi))
             else merged == covered + [before] && current == next
    ensures forall x :: CoversAny(merged + [current], x) <==> CoversAny(prefix + [next], x)
  {
    forall x ensures CoversAny(merged + [current], x) <==> CoversAny(prefix + [next], x) {
      if OverlapsOrTouches(before.hi, next.lo, top) {
        AbsorbCovers(before, next, current, top, x);
      }
      CoversAnyAppend(prefix, next, x);
      CoversAnyAppend(covered, before, x);
      CoversAnyAppend(merged, current, x);
    }
  }

  /** `sorted(intervals, key=_interval_sort_key)` orders the starts. */
  lemma SortedIntervals(intervals: seq<Interval>, top: Option<int>)
    requires AllOrdered(intervals)
    requires forall i :: 0 <= i < |intervals| ==> Within(intervals[i], top)
    ensures |Sort(SortKeyLe, intervals)| == |intervals|
    ensures forall i, j :: 0 <= i < j < |intervals| ==>
              StartsNoLater(Sort(SortKeyLe, intervals)[i], Sort(SortKeyLe, intervals)[j])
    ensures forall i :: 0 <= i < |intervals| ==>
              Ordered(Sort(SortKeyLe, intervals)[i]) && Within(Sort(SortKeyLe, intervals)[i], top)
    ensures forall x :: CoversAny(Sort(SortKeyLe, intervals), x) <==> CoversAny(intervals, x)
  {
    SortIsSorted(SortKeyLe, intervals);
    var ordered := Sort(SortKeyLe, intervals);
    forall i, j | 0 <= i < j < |ordered| ensures StartsNoLater(ordered[i], ordered[j]) {
      assert SortKeyLe(ordered[i], ordered[j]);
    }
    forall i | 0 <= i < |ordered| ensures Ordered(ordered[i]) && Within(ordered[i], top) {
      assert ordered[i] in ordered;
    }
    forall x ensures CoversAny(ordered, x) <==> CoversAny(intervals, x) {
      CoversAnyPermutation(ordered, intervals, x);
    }
  }

  /** `_merge_intervals`: the canonical intervals covering the same points,
      whatever the order, overlap or abutment of the input. */
  method MergeIntervals(intervals: seq<Interval>, top: Option<int>) returns (merged: seq<Interval>)
    requires AllOrdered(intervals)
    requires forall i :: 0 <= i < |intervals| ==> Within(intervals[i], top)
    ensures CanonicalIntervals(merged)
    ensures forall x :: CoversAny(merged, x) <==> CoversAny(intervals, x)
  {
    if intervals == [] {
      return [];
    }
    var ordered := Sort(SortKeyLe, intervals);
    SortedIntervals(intervals, top);
    merged := [];
    var current := ordered[0];
    assert ordered[..1] == [current] && merged + [current] == [current];
    var i := 1;
    while i < |ordered|
      invariant 1 <= i <= |ordered|
      invariant Ordered(current) && Within(current, top)
      invariant forall j :: i <= j < |ordered| ==> StartsNoLater(current, ordered[j])
      invariant CanonicalIntervals(merged + [current])
      invariant forall x :: CoversAny(merged + [current], x) <==> CoversAny(ordered[..i], x)
    {
      var next := ordered[i];
      ghost var before, covered := current, merged;
      if OverlapsOrTouches(current.hi, next.lo, top) {
        if next.hi.None? {
          current := current.(hi := None);
        } else if current.hi.Some? && next.hi.value > current.hi.value {
          current := current.(hi := next.hi);
        }
        PendingGrows(merged, before, current);
      } else {
        merged := merged + [current];
        current := next;
        PendingCloses(covered, before, next);
      }
      CoverageStep(covered, before, merged, current, ordered[..i], next, top);
      assert ordered[..i + 1] == ordered[..i] + [next];
      i := i + 1;
    }
    assert ordered[..i] == ordered;
    merged := merged + [current];
  }
}
