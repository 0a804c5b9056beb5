/** Cutting the year line into segments and relabelling it: `_covers_year`,
    `_year_segments` and the relabelling loop of `_merge_recurring`
    (edgar_sec/domain/filing_catalog/filters.py:456-549). */
module YearSegments {
  import opened Common
  import opened Sorting
  import opened Intervals

  /** Consecutive segments that cover every year once. */
  ghost predicate Partition(segs: seq<Interval>) {
    && |segs| > 0
    && segs[0].lo == None && segs[|segs| - 1].hi == None
    && AllOrdered(segs)
    && (forall i, j :: 0 <= i && j == i + 1 && j < |segs| ==> Adjacent(segs[i], segs[j]))
  }

  predicate Adjacent(a: Interval, b: Interval) {
    a.hi.Some? && b.lo.Some? && b.lo.value == a.hi.value + 1
  }

  /** The interval contains all of the segment or none of it. */
  ghost predicate UniformOn(iv: Interval, seg: Interval) {
    forall x, y :: Covers(seg, x) && Covers(seg, y) ==> Covers(iv, x) == Covers(iv, y)
  }

  /** `_covers_year`. */
  predicate CoversYear(iv: Interval, seg: Interval) {
    if iv.lo.Some? && (seg.lo.None? || iv.lo.value > seg.lo.value) then false
    else !(iv.hi.Some? && (seg.hi.None? || iv.hi.value < seg.hi.value))
  }

  /** The bound comparisons of `_covers_year` decide containment. */
  lemma CoversYearIsContainment(iv: Interval, seg: Interval)
    requires Ordered(seg)
    ensures CoversYear(iv, seg) <==> forall x :: Covers(seg, x) ==> Covers(iv, x)
  {
    if !CoversYear(iv, seg) {
      var x := if iv.lo.Some? && (seg.lo.None? || iv.lo.value > seg.lo.value)
               then Least(seg, iv.lo.value - 1) else Greatest(seg, iv.hi.value + 1);
      assert Covers(seg, x) && !Covers(iv, x);
    }
  }

  /** A point of the segment no greater than `cap` when the segment reaches that low. */
  function Least(seg: Interval, cap: int): int {
    if seg.lo.Some? then seg.lo.value
    else if seg.hi.Some? && seg.hi.value < cap then seg.hi.value else cap
  }

  function Greatest(seg: Interval, floor: int): int {
    if seg.hi.Some? then seg.hi.value
    else if seg.lo.Some? && seg.lo.value > floor then seg.lo.value else floor
  }

  lemma {:induction false} PartitionCovers(segs: seq<Interval>, n: nat, x: int)
    requires Partition(segs) && n < |segs|
    requires segs[n].hi.None? || x <= segs[n].hi.value
    ensures exists k :: 0 <= k <= n && Covers(segs[k], x)
  {
    if Covers(segs[n], x) {
    } else {
      assert n > 0;
      assert Adjacent(segs[n - 1], segs[n]);
      PartitionCovers(segs, n - 1, x);
    }
  }

  lemma {:induction false} PartitionOrder(segs: seq<Interval>, i: nat, j: nat)
    requires Partition(segs) && i < j < |segs|
    ensures segs[i].hi.Some? && segs[j].lo.Some? && segs[i].hi.value < segs[j].lo.value
    decreases j - i
  {
    assert Adjacent(segs[i], segs[i + 1]);
    if i + 1 < j {
      PartitionOrder(segs, i + 1, j);
    }
  }

  /** Every year lies in exactly one segment of a partition. */
  lemma PartitionExact(segs: seq<Interval>, x: int)
    requires Partition(segs)
    ensures exists k :: 0 <= k < |segs| && Covers(segs[k], x)
    ensures forall i, j :: 0 <= i < |segs| && 0 <= j < |segs| && Covers(segs[i], x) && Covers(segs[j], x) ==> i == j
  {
    PartitionCovers(segs, |segs| - 1, x);
    forall i, j | 0 <= i < |segs| && 0 <= j < |segs| && Covers(segs[i], x) && Covers(segs[j], x) ensures i == j {
      if i < j { PartitionOrder(segs, i, j); }
      if j < i { PartitionOrder(segs, j, i); }
    }
  }

  /** `y` is where some interval starts, or the year after one ends. */
  ghost predicate IsBoundary(intervals: seq<Interval>, y: int) {
    exists i :: 0 <= i < |intervals| && (intervals[i].lo == Some(y) || intervals[i].hi == Some(y - 1))
  }

  lemma UniformWithoutInnerBoundary(iv: Interval, seg: Interval)
    requires iv.lo.Some? ==> !(Covers(seg, iv.lo.value - 1) && Covers(seg, iv.lo.value))
    requires iv.hi.Some? ==> !(Covers(seg, iv.hi.value) && Covers(seg, iv.hi.value + 1))
    ensures UniformOn(iv, seg)
  {
  }

  /** The segment between consecutive boundaries. */
  function Cut(ordered: seq<int>, k: nat): Interval
    requires k <= |ordered|
  {
    Interval(if k == 0 then None else Some(ordered[k - 1]),
             if k == |ordered| then None else Some(ordered[k] - 1))
  }

  /** A boundary never has both its neighbours inside one segment. */
  lemma CutExcludesBoundary(ordered: seq<int>, k: nat, m: nat)
    requires StrictlyAscending(ordered) && k <= |ordered| && m < |ordered|
    ensures !(Covers(Cut(ordered, k), ordered[m] - 1) && Covers(Cut(ordered, k), ordered[m]))
  {
    if m < k {
      assert ordered[m] <= ordered[k - 1];
    } else {
      assert ordered[k] <= ordered[m];
    }
  }

  lemma CutUniform(intervals: seq<Interval>, ordered: seq<int>, i: nat, k: nat)
    requires StrictlyAscending(ordered) && k <= |ordered| && i < |intervals|
    requires intervals[i].lo.Some? ==> intervals[i].lo.value in ordered
    requires intervals[i].hi.Some? ==> intervals[i].hi.value + 1 in ordered
    ensures UniformOn(intervals[i], Cut(ordered, k))
  {
    forall m | 0 <= m < |ordered|
      ensures !(Covers(Cut(ordered, k), ordered[m] - 1) && Covers(Cut(ordered, k), ordered[m]))
    {
      CutExcludesBoundary(ordered, k, m);
    }
    UniformWithoutInnerBoundary(intervals[i], Cut(ordered, k));
  }

  /** `_year_segments`: the segments partition the years, start only at interval
      boundaries, and no interval splits one. */
  method SegmentYears(intervals: seq<Interval>) returns (segments: seq<Interval>)
    ensures Partition(segments)
    ensures forall i, k :: 0 <= i < |intervals| && 0 <= k < |segments| ==> UniformOn(intervals[i], segments[k])
    ensures forall k :: 0 < k < |segments| ==> segments[k].lo.Some? && IsBoundary(intervals, segments[k].lo.value)
  {
    var boundaries: set<int> := {};
    for n := 0 to |intervals|
      invariant forall i :: 0 <= i < n ==> (intervals[i].lo.Some? ==> intervals[i].lo.value in boundaries)
      invariant forall i :: 0 <= i < n ==> (intervals[i].hi.Some? ==> intervals[i].hi.value + 1 in boundaries)
      invariant forall y :: y in boundaries ==> IsBoundary(intervals, y)
    {
      if intervals[n].lo.Some? {
        boundaries := boundaries + {intervals[n].lo.value};
      }
      if intervals[n].hi.Some? {
        boundaries := boundaries + {intervals[n].hi.value + 1};
      }
    }
    if boundaries == {} {
      return [Interval(None, None)];
    }
    var ordered := Ascending(boundaries);
    assert ordered != [] by { var some := Pick(boundaries); assert some in ordered; }
    segments := [Interval(None, Some(ordered[0] - 1))];
    for n := 0 to |ordered|
      invariant |segments| == n + 1
      invariant forall k :: 0 <= k <= n ==> segments[k] == Cut(ordered, k)
    {
      segments := segments + [Interval(Some(ordered[n]), if n + 1 < |ordered| then Some(ordered[n + 1] - 1) else None)];
    }
    CutBoundaries(intervals, boundaries, ordered, segments);
  }

  lemma CutBoundaries(intervals: seq<Interval>, boundaries: set<int>, ordered: seq<int>, segments: seq<Interval>)
    requires StrictlyAscending(ordered) && ordered != []
    requires forall y :: y in ordered <==> y in boundaries
    requires forall i :: 0 <= i < |intervals| ==> (intervals[i].lo.Some? ==> intervals[i].lo.value in boundaries)
    requires forall i :: 0 <= i < |intervals| ==> (intervals[i].hi.Some? ==> intervals[i].hi.value + 1 in boundaries)
    requires forall y :: y in boundaries ==> IsBoundary(intervals, y)
    requires |segments| == |ordered| + 1
    requires forall k :: 0 <= k <= |ordered| ==> segments[k] == Cut(ordered, k)
    ensures Partition(segments)
    ensures forall i, k :: 0 <= i < |intervals| && 0 <= k < |segments| ==> UniformOn(intervals[i], segments[k])
    ensures forall k :: 0 < k < |segments| ==> segments[k].lo.Some? && IsBoundary(intervals, segments[k].lo.value)
  {
    forall i, k | 0 <= i < |intervals| && 0 <= k < |segments| ensures UniformOn(intervals[i], segments[k]) {
      if intervals[i].lo.Some? {
        var start := intervals[i].lo.value;
        assert start in boundaries && start in ordered;
      }
      if intervals[i].hi.Some? {
        var after := intervals[i].hi.value + 1;
        assert after in boundaries && after in ordered;
      }
      CutUniform(intervals, ordered, i, k);
    }
    forall k | 0 < k < |segments| ensures segments[k].lo.Some? && IsBoundary(intervals, segments[k].lo.value) {
      assert ordered[k - 1] in ordered;
    }
  }

  // -------------------------------------------------------------- relabelling

  /** The values whose spans contain year `x`. */
  ghost function ActiveValues(perValue: map<int, seq<Interval>>, x: int): set<int> {
    set v | v in perValue && CoversAny(perValue[v], x)
  }

  /** The tuple of values a year carries, or nothing. */
  ghost function ActiveTag(perValue: map<int, seq<Interval>>, x: int): Option<seq<int>> {
    var active := ActiveValues(perValue, x);
    if active == {} then None else Some(Ascending(active))
  }

  predicate SomeSpanCovers(spans: seq<Interval>, seg: Interval) {
    exists i :: 0 <= i < |spans| && CoversYear(spans[i], seg)
  }

  function SegmentValues(perValue: map<int, seq<Interval>>, seg: Interval): set<int> {
    set v | v in perValue && SomeSpanCovers(perValue[v], seg)
  }

  ghost predicate UniformSpans(perValue: map<int, seq<Interval>>, seg: Interval) {
    forall v, i :: v in perValue && 0 <= i < |perValue[v]| ==> UniformOn(perValue[v][i], seg)
  }

  /** On a segment no span splits, the segment's values are every year's values. */
  lemma SegmentValuesActive(perValue: map<int, seq<Interval>>, seg: Interval, x: int)
    requires Ordered(seg) && UniformSpans(perValue, seg) && Covers(seg, x)
    ensures SegmentValues(perValue, seg) == ActiveValues(perValue, x)
  {
    forall v | v in perValue ensures SomeSpanCovers(perValue[v], seg) <==> CoversAny(perValue[v], x) {
      forall i | 0 <= i < |perValue[v]| ensures CoversYear(perValue[v][i], seg) <==> Covers(perValue[v][i], x) {
        CoversYearIsContainment(perValue[v][i], seg);
        assert UniformOn(perValue[v][i], seg);
      }
    }
  }

  lemma {:induction false} LabelAtAppend<T>(rs: seq<Run<T>>, r: Run<T>, x: int)
    ensures LabelAt(rs + [r], x) ==
            if LabelAt(rs, x).Some? then LabelAt(rs, x)
            else if Covers(r.span, x) then Some(r.tag) else None
  {
    if rs == [] {
      assert rs + [r] == [r];
    } else {
      LabelAtAppend(rs[1..], r, x);
      assert (rs + [r])[1..] == rs[1..] + [r];
    }
  }

  lemma {:induction false} UnlabelledAfter<T>(rs: seq<Run<T>>, x: int)
    requires CanonicalRuns(rs)
    requires rs != [] ==> rs[|rs| - 1].span.hi.Some? && rs[|rs| - 1].span.hi.value < x
    ensures LabelAt(rs, x) == None
  {
    if rs == [] {
    } else {
      if |rs| > 1 {
        CanonicalTail(rs);
        assert rs[1..][|rs| - 2] == rs[|rs| - 1];
        EndsIncrease(rs, 0, |rs| - 1);
        UnlabelledAfter(rs[1..], x);
      }
    }
  }

  lemma {:induction false} EndsIncrease<T>(rs: seq<Run<T>>, i: nat, j: nat)
    requires CanonicalRuns(rs) && i < j < |rs|
    ensures rs[i].span.hi.Some? && (rs[j].span.hi.Some? ==> rs[i].span.hi.value < rs[j].span.hi.value)
    ensures rs[j].span.lo.Some? && rs[i].span.hi.value < rs[j].span.lo.value
    decreases j - i
  {
    assert Follows(rs[i], rs[i + 1]);
    if i + 1 < j {
      EndsIncrease(rs, i + 1, j);
    }
  }

  /** Appending a run that follows the last one. */
  lemma AppendRun<T>(rs: seq<Run<T>>, r: Run<T>, x: int)
    requires CanonicalRuns(rs) && Ordered(r.span)
    requires rs != [] ==> Follows(rs[|rs| - 1], r)
    ensures CanonicalRuns(rs + [r])
    ensures LabelAt(rs + [r], x) == if Covers(r.span, x) then Some(r.tag) else LabelAt(rs, x)
  {
    var t := rs + [r];
    forall i, j | 0 <= i && j == i + 1 && j < |t| ensures Follows(t[i], t[j]) {
      if j < |rs| { assert Follows(rs[i], rs[j]); }
    }
    LabelAtAppend(rs, r, x);
    if Covers(r.span, x) {
      UnlabelledAfter(rs, x);
    }
  }

  /** Growing the last run over the segment right after it. */
  lemma ExtendLastRun<T>(rs: seq<Run<T>>, seg: Interval, x: int)
    requires CanonicalRuns(rs) && rs != [] && Ordered(seg)
    requires Adjacent(rs[|rs| - 1].span, seg)
    ensures var last := rs[|rs| - 1];
            var grown := rs[..|rs| - 1] + [Run(Interval(last.span.lo, seg.hi), last.tag)];
            && CanonicalRuns(grown)
            && LabelAt(grown, x) == if Covers(seg, x) then Some(last.tag) else LabelAt(rs, x)
  {
    var n := |rs| - 1;
    var front, last := rs[..n], rs[n];
    assert rs == front + [last];
    forall i, j | 0 <= i && j == i + 1 && j < |front| ensures Follows(front[i], front[j]) {
      assert Follows(rs[i], rs[j]);
    }
    if n > 0 { assert Follows(rs[n - 1], rs[n]); }
    AppendRun(front, Run(Interval(last.span.lo, seg.hi), last.tag), x);
    AppendRun(front, last, x);
  }

  /** One turn of the relabelling loop keeps the labelling of the segments seen. */
  ghost predicate LabelsSeen(labelled: seq<Run<seq<int>>>, perValue: map<int, seq<Interval>>, segments: seq<Interval>,
                             n: nat)
    requires n <= |segments|
  {
    forall x :: LabelAt(labelled, x) == if CoversAny(segments[..n], x) then ActiveTag(perValue, x) else None
  }

  lemma LabelsSeenStep(before: seq<Run<seq<int>>>, after: seq<Run<seq<int>>>, perValue: map<int, seq<Interval>>,
                       segments: seq<Interval>, n: nat)
    requires Partition(segments) && n < |segments|
    requires UniformSpans(perValue, segments[n])
    requires LabelsSeen(before, perValue, segments, n)
    requires var values := SegmentValues(perValue, segments[n]);
             forall x :: LabelAt(after, x) ==
                         if values != {} && Covers(segments[n], x) then Some(Ascending(values)) else LabelAt(before, x)
    ensures LabelsSeen(after, perValue, segments, n + 1)
  {
    assert segments[..n + 1] == segments[..n] + [segments[n]];
    forall x ensures LabelAt(after, x) == if CoversAny(segments[..n + 1], x) then ActiveTag(perValue, x) else None {
      CoversAnyAppend(segments[..n], segments[n], x);
      if Covers(segments[n], x) {
        SegmentValuesActive(perValue, segments[n], x);
        PartitionExact(segments, x);
        assert !CoversAny(segments[..n], x);
      }
    }
  }

  /** The relabelling loop: maximal runs of years that carry the same nonempty
      tuple of values, in timeline order. */
  method LabelSegments(segments: seq<Interval>, perValue: map<int, seq<Interval>>)
    returns (labelled: seq<Run<seq<int>>>)
    requires Partition(segments)
    requires forall k :: 0 <= k < |segments| ==> UniformSpans(perValue, segments[k])
    ensures CanonicalRuns(labelled)
    ensures forall x :: LabelAt(labelled, x) == ActiveTag(perValue, x)
  {
    labelled := [];
    for n := 0 to |segments|
      invariant CanonicalRuns(labelled)
      invariant LabelsSeen(labelled, perValue, segments, n)
      invariant labelled != [] && n < |segments| ==>
                  && labelled[|labelled| - 1].span.hi.Some?
                  && segments[n].lo.Some?
                  && labelled[|labelled| - 1].span.hi.value < segments[n].lo.value
    {
      var segment := segments[n];
      ghost var before := labelled;
      var values := Ascending(SegmentValues(perValue, segment));
      if values != [] {
        if labelled != []
          && labelled[|labelled| - 1].tag == values
          && labelled[|labelled| - 1].span.hi.Some?
          && segment.lo == Some(labelled[|labelled| - 1].span.hi.value + 1)
        {
          var previous := labelled[|labelled| - 1];
          forall x { ExtendLastRun(labelled, segment, x); }
          ExtendLastRun(labelled, segment, 0);
          labelled := labelled[..|labelled| - 1] + [Run(Interval(previous.span.lo, segment.hi), values)];
        } else {
          forall x { AppendRun(labelled, Run(segment, values), x); }
          AppendRun(labelled, Run(segment, values), 0);
          labelled := labelled + [Run(segment, values)];
        }
      }
      LabelsSeenStep(before, labelled, perValue, segments, n);
      if n + 1 < |segments| {
        assert Adjacent(segments[n], segments[n + 1]);
      }
    }
    forall x ensures LabelAt(labelled, x) == ActiveTag(perValue, x) {
      PartitionExact(segments, x);
      assert segments[..|segments|] == segments;
    }
  }
}
