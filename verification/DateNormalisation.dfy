/** The canonicaliser itself: `_merge_absolute`, `_merge_recurring` and
    `normalize_date_selection` (edgar_sec/domain/filing_catalog/filters.py:441-567),
    proved against the declarative normal form of module DateSelection. */
module DateNormalisation {
  import opened Common
  import opened Sorting
  import opened Intervals
  import opened YearSegments
  import opened Calendar
  import opened DateSelection

  /** `_merge_absolute`: merged spans, with all-date coverage dropped. */
  method MergeAbsolute(clauses: seq<Clause>) returns (merged: seq<Interval>)
    requires AllValid(clauses)
    requires forall i :: 0 <= i < |clauses| ==> clauses[i].Absolute?
    ensures CanonicalIntervals(merged) && Interval(None, None) !in merged
    ensures forall day :: CoversAny(merged, day) <==> KeepsDay(clauses, day)
    ensures forall i :: 0 <= i < |merged| ==> IsDay(merged[i].lo) && IsDay(merged[i].hi)
  {
    var spans := seq(|clauses|, i requires 0 <= i < |clauses| => clauses[i].days);
    assert forall i :: 0 <= i < |clauses| ==> ValidClause(clauses[i]);
    var all := MergeIntervals(spans, Some(MAX_ORDINAL));
    forall day ensures CoversAny(all, day) <==> AbsoluteCovers(clauses, day) {
      assert CoversAny(all, day) <==> CoversAny(spans, day);
      if CoversAny(spans, day) {
        var i :| 0 <= i < |spans| && Covers(spans[i], day);
        assert clauses[i].Absolute? && Covers(clauses[i].days, day);
      }
      if AbsoluteCovers(clauses, day) {
        var i :| 0 <= i < |clauses| && clauses[i].Absolute? && Covers(clauses[i].days, day);
        assert Covers(spans[i], day);
      }
    }
    MergedBoundsAreDays(clauses, all);
    merged := [];
    for n := 0 to |all|
      invariant merged == if n > 0 && all[0] == Interval(None, None) then [] else all[..n]
    {
      if n > 0 {
        EndsBeforeNext(all, n);
      }
      if all[n].lo.Some? || all[n].hi.Some? {
        merged := merged + [all[n]];
      }
    }
    DropFullCoverage(clauses, all, merged);
  }

  lemma EndsBeforeNext(all: seq<Interval>, n: nat)
    requires CanonicalIntervals(all) && 0 < n < |all|
    ensures all[0].hi.Some? && all[n].lo.Some?
  {
    assert Apart(all[n - 1], all[n]);
    assert Apart(all[0], all[1]);
  }

  /** A merged bound is a day of the calendar, because coverage changes there. */
  lemma MergedBoundsAreDays(clauses: seq<Clause>, all: seq<Interval>)
    requires AllValid(clauses) && CanonicalIntervals(all)
    requires forall day :: CoversAny(all, day) <==> AbsoluteCovers(clauses, day)
    ensures forall i :: 0 <= i < |all| ==> IsDay(all[i].lo) && IsDay(all[i].hi)
  {
    var runs := AsRuns(all);
    IntervalRunsCanonical(all);
    forall i | 0 <= i < |all| ensures IsDay(all[i].lo) && IsDay(all[i].hi) {
      if all[i].lo.Some? {
        var x := all[i].lo.value;
        RunStartsAtChange(runs, i);
        LabelAtAsRuns(all, x);
        LabelAtAsRuns(all, x - 1);
        assert AbsoluteCovers(clauses, x) && !AbsoluteCovers(clauses, x - 1);
        var k :| 0 <= k < |clauses| && clauses[k].Absolute? && Covers(clauses[k].days, x);
        assert ValidClause(clauses[k]) && !Covers(clauses[k].days, x - 1);
      }
      if all[i].hi.Some? {
        var x := all[i].hi.value;
        RunEndsAtChange(runs, i);
        LabelAtAsRuns(all, x);
        LabelAtAsRuns(all, x + 1);
        assert AbsoluteCovers(clauses, x) && !AbsoluteCovers(clauses, x + 1);
        var k :| 0 <= k < |clauses| && clauses[k].Absolute? && Covers(clauses[k].days, x);
        assert ValidClause(clauses[k]) && !Covers(clauses[k].days, x + 1);
      }
    }
  }

  /** The fully open interval can only be the whole merged list. */
  lemma DropFullCoverage(clauses: seq<Clause>, all: seq<Interval>, merged: seq<Interval>)
    requires CanonicalIntervals(all)
    requires forall day :: CoversAny(all, day) <==> AbsoluteCovers(clauses, day)
    requires merged == if |all| > 0 && all[0] == Interval(None, None) then [] else all
    ensures CanonicalIntervals(merged) && Interval(None, None) !in merged
    ensures forall day :: CoversAny(merged, day) <==> KeepsDay(clauses, day)
  {
    forall i | 0 < i < |all| ensures all[i] != Interval(None, None) {
      EndsBeforeNext(all, i);
    }
    var full := [Interval(None, None)];
    if |all| > 0 && all[0] == Interval(None, None) {
      assert |all| > 1 ==> Apart(all[0], all[1]);
      forall day ensures AbsoluteCovers(clauses, day) {
        assert Covers(all[0], day);
        assert CoversAny(all, day);
      }
    } else if CoversEveryDay(clauses) {
      forall day ensures CoversAny(all, day) <==> CoversAny(full, day) {
        assert Covers(full[0], day);
      }
      CanonicalIntervalsUnique(all, full);
    }
  }

  // --------------------------------------------------------- recurring clauses

  type Period = (int, Interval)

  /** The clauses' (value, span) pairs of one granularity. */
  ghost predicate PairsOf(pairs: seq<Period>, clauses: seq<Clause>, g: Granularity) {
    forall v, span :: (v, span) in pairs <==> HasPeriod(clauses, g, v, span)
  }

  ghost predicate HasPeriod(clauses: seq<Clause>, g: Granularity, v: int, span: Interval) {
    exists i :: 0 <= i < |clauses| && ClauseHasPeriod(clauses[i], g, v, span)
  }

  predicate ClauseHasPeriod(c: Clause, g: Granularity, v: int, span: Interval) {
    c.Recurring? && c.granularity == g && v in c.values && c.years == span
  }

  lemma HasPeriodAppend(clauses: seq<Clause>, c: Clause, g: Granularity, v: int, span: Interval)
    ensures HasPeriod(clauses + [c], g, v, span) <==> HasPeriod(clauses, g, v, span) || ClauseHasPeriod(c, g, v, span)
  {
    var t := clauses + [c];
    if HasPeriod(clauses, g, v, span) {
      var i :| 0 <= i < |clauses| && ClauseHasPeriod(clauses[i], g, v, span);
      assert ClauseHasPeriod(t[i], g, v, span);
    }
    if ClauseHasPeriod(c, g, v, span) {
      assert ClauseHasPeriod(t[|clauses|], g, v, span);
    }
  }

  /** The grouping loop of `_merge_recurring`. */
  method GroupPeriods(clauses: seq<Clause>) returns (grouped: map<Granularity, seq<Period>>)
    requires forall i :: 0 <= i < |clauses| ==> clauses[i].Recurring?
    ensures forall g :: PairsOf(if g in grouped then grouped[g] else [], clauses, g)
  {
    grouped := map[];
    for n := 0 to |clauses|
      invariant forall g :: PairsOf(if g in grouped then grouped[g] else [], clauses[..n], g)
    {
      var c := clauses[n];
      var g := c.granularity;
      var so := if g in grouped then grouped[g] else [];
      var added := seq(|c.values|, k requires 0 <= k < |c.values| => (c.values[k], c.years));
      ghost var before := grouped;
      grouped := grouped[g := so + added];
      assert clauses[..n + 1] == clauses[..n] + [c];
      forall h ensures PairsOf(if h in grouped then grouped[h] else [], clauses[..n + 1], h) {
        GroupStep(if h in before then before[h] else [], if h in grouped then grouped[h] else [],
                  clauses[..n], c, added, h);
      }
    }
    assert clauses[..|clauses|] == clauses;
  }

  lemma GroupStep(before: seq<Period>, after: seq<Period>, clauses: seq<Clause>, c: Clause, added: seq<Period>,
                  g: Granularity)
    requires c.Recurring? && PairsOf(before, clauses, g)
    requires |added| == |c.values| && forall k :: 0 <= k < |c.values| ==> added[k] == (c.values[k], c.years)
    requires after == if c.granularity == g then before + added else before
    ensures PairsOf(after, clauses + [c], g)
  {
    forall v, span ensures (v, span) in after <==> HasPeriod(clauses + [c], g, v, span) {
      HasPeriodAppend(clauses, c, g, v, span);
      assert (v, span) in before <==> HasPeriod(clauses, g, v, span);
      if c.granularity == g {
        if (v, span) in added {
          var k :| 0 <= k < |added| && added[k] == (v, span);
          assert c.values[k] in c.values;
        }
        if ClauseHasPeriod(c, g, v, span) {
          var k :| 0 <= k < |c.values| && c.values[k] == v;
          assert added[k] == (v, span);
        }
      }
    }
  }

  /** The values paired with a span containing `year`. */
  ghost predicate PairsSelect(pairs: seq<Period>, year: int, v: int) {
    exists span :: (v, span) in pairs && Covers(span, year)
  }

  ghost predicate SpansMatchPairs(perValue: map<int, seq<Interval>>, pairs: seq<Period>) {
    && (forall v, span :: v in perValue && span in perValue[v] ==> (v, span) in pairs)
    && (forall v, span :: (v, span) in pairs ==> v in perValue && span in perValue[v])
  }

  /** The per-value loop: each value's spans. */
  method SpansByValue(pairs: seq<Period>) returns (perValue: map<int, seq<Interval>>)
    ensures SpansMatchPairs(perValue, pairs)
  {
    perValue := map[];
    for n := 0 to |pairs|
      invariant SpansMatchPairs(perValue, pairs[..n])
    {
      var (value, span) := pairs[n];
      assert pairs[..n + 1] == pairs[..n] + [pairs[n]];
      perValue := perValue[value := (if value in perValue then perValue[value] else []) + [span]];
    }
    assert pairs[..|pairs|] == pairs;
  }

  ghost predicate MergedFor(perValue: map<int, seq<Interval>>, original: map<int, seq<Interval>>, done: set<int>) {
    && perValue.Keys == done && done <= original.Keys
    && (forall v :: v in done ==> SameCoverage(perValue[v], original[v]))
  }

  ghost predicate SameCoverage(merged: seq<Interval>, spans: seq<Interval>) {
    CanonicalIntervals(merged) && forall year :: CoversAny(merged, year) <==> CoversAny(spans, year)
  }

  lemma MergedStep(perValue: map<int, seq<Interval>>, original: map<int, seq<Interval>>, done: set<int>, v: int,
                   merged: seq<Interval>)
    requires MergedFor(perValue, original, done) && v in original
    requires CanonicalIntervals(merged) && forall year :: CoversAny(merged, year) <==> CoversAny(original[v], year)
    ensures MergedFor(perValue[v := merged], original, done + {v})
  {
  }

  /** Per-value reduction: every value's spans merged into canonical intervals. */
  method MergeEachValue(original: map<int, seq<Interval>>) returns (perValue: map<int, seq<Interval>>)
    requires forall v :: v in original ==> AllOrdered(original[v])
    ensures MergedFor(perValue, original, original.Keys)
  {
    perValue := map[];
    var keys := Ascending(original.Keys);
    ghost var done: set<int> := {};
    for n := 0 to |keys|
      invariant MergedFor(perValue, original, done)
      invariant forall j :: 0 <= j < n ==> keys[j] in done
    {
      var v := keys[n];
      assert v in keys && v in original;
      var merged := MergeIntervals(original[v], None);
      MergedStep(perValue, original, done, v, merged);
      perValue := perValue[v := merged];
      done := done + {v};
    }
    assert forall v :: v in original.Keys ==> v in keys;
    assert done == original.Keys;
  }

  /** Every span of every value, in value order. */
  method AllSpans(perValue: map<int, seq<Interval>>) returns (spans: seq<Interval>)
    ensures forall v, span :: v in perValue && span in perValue[v] ==> span in spans
  {
    spans := [];
    var keys := Ascending(perValue.Keys);
    for n := 0 to |keys|
      invariant forall v, span :: v in keys[..n] && span in perValue[v] ==> span in spans
    {
      assert keys[n] in keys;
      assert keys[..n + 1] == keys[..n] + [keys[n]];
      spans := spans + perValue[keys[n]];
    }
    assert keys[..|keys|] == keys;
  }

  lemma ActiveIsPairsSelect(perValue: map<int, seq<Interval>>, original: map<int, seq<Interval>>, pairs: seq<Period>,
                            year: int, v: int)
    requires MergedFor(perValue, original, original.Keys) && SpansMatchPairs(original, pairs)
    ensures v in ActiveValues(perValue, year) <==> PairsSelect(pairs, year, v)
  {
    if v in ActiveValues(perValue, year) {
      assert v in perValue && SameCoverage(perValue[v], original[v]);
      var i :| 0 <= i < |original[v]| && Covers(original[v][i], year);
      assert original[v][i] in original[v];
    }
    if PairsSelect(pairs, year, v) {
      var span :| (v, span) in pairs && Covers(span, year);
      var i :| 0 <= i < |original[v]| && original[v][i] == span;
      assert v in perValue && SameCoverage(perValue[v], original[v]);
      assert CoversAny(original[v], year);
    }
  }

  /** One granularity's turn: its maximal runs of years with constant values. */
  method RunsOf(pairs: seq<Period>) returns (runs: seq<Run<seq<int>>>)
    requires forall v, span :: (v, span) in pairs ==> Ordered(span)
    ensures CanonicalRuns(runs) && CanonicalTags(runs)
    ensures forall year, v :: InTag(LabelAt(runs, year), v) <==> PairsSelect(pairs, year, v)
  {
    var original := SpansByValue(pairs);
    forall v | v in original ensures AllOrdered(original[v]) {
      forall i | 0 <= i < |original[v]| ensures Ordered(original[v][i]) {
        assert original[v][i] in original[v];
        assert (v, original[v][i]) in pairs;
      }
    }
    var perValue := MergeEachValue(original);
    var spans := AllSpans(perValue);
    var segments := SegmentYears(spans);
    forall k | 0 <= k < |segments| ensures UniformSpans(perValue, segments[k]) {
      forall v, i | v in perValue && 0 <= i < |perValue[v]| ensures UniformOn(perValue[v][i], segments[k]) {
        assert perValue[v][i] in perValue[v];
        assert perValue[v][i] in spans;
        var j :| 0 <= j < |spans| && spans[j] == perValue[v][i];
        assert UniformOn(spans[j], segments[k]);
      }
    }
    runs := LabelSegments(segments, perValue);
    forall year, v ensures InTag(LabelAt(runs, year), v) <==> PairsSelect(pairs, year, v) {
      ActiveIsPairsSelect(perValue, original, pairs, year, v);
      assert LabelAt(runs, year) == ActiveTag(perValue, year);
    }
    TagsFromActive(runs, perValue);
  }

  lemma TagsFromActive(runs: seq<Run<seq<int>>>, perValue: map<int, seq<Interval>>)
    requires CanonicalRuns(runs)
    requires forall x :: LabelAt(runs, x) == ActiveTag(perValue, x)
    ensures CanonicalTags(runs)
  {
    forall i | 0 <= i < |runs| ensures runs[i].tag != [] && StrictlyAscending(runs[i].tag) {
      var x := SomePoint(runs[i].span);
      LabelOfCovering(runs, i, x);
      assert LabelAt(runs, x) == ActiveTag(perValue, x);
      var v := Pick(ActiveValues(perValue, x));
      assert v in runs[i].tag;
    }
  }

  lemma PairsSelectIsSelects(pairs: seq<Period>, clauses: seq<Clause>, g: Granularity, year: int, v: int)
    requires PairsOf(pairs, clauses, g)
    ensures PairsSelect(pairs, year, v) <==> Selects(clauses, g, year, v)
  {
    if PairsSelect(pairs, year, v) {
      var span :| (v, span) in pairs && Covers(span, year);
      assert HasPeriod(clauses, g, v, span);
      var i :| 0 <= i < |clauses| && ClauseHasPeriod(clauses[i], g, v, span);
      assert ClauseSelects(clauses[i], g, year, v);
    }
    if Selects(clauses, g, year, v) {
      var i :| 0 <= i < |clauses| && ClauseSelects(clauses[i], g, year, v);
      assert ClauseHasPeriod(clauses[i], g, v, clauses[i].years);
      assert HasPeriod(clauses, g, v, clauses[i].years);
      assert (v, clauses[i].years) in pairs;
    }
  }

  /** Building the clauses of one granularity; `RecurringDateClause` rejects a run
      whose bound is not a valid year. */
  method BuildClauses(g: Granularity, runs: seq<Run<seq<int>>>) returns (r: Result<seq<Clause>>)
    ensures r.Success? <==> AllYearsValid(runs)
    ensures r.Success? ==> r.value == AsRecurring(g, runs)
  {
    var merged: seq<Clause> := [];
    for n := 0 to |runs|
      invariant forall i :: 0 <= i < n ==> ValidYears(runs[i].span)
      invariant merged == AsRecurring(g, runs)[..n]
    {
      if !ValidYears(runs[n].span) {
        return Failure;
      }
      merged := merged + [Recurring(g, runs[n].tag, runs[n].span)];
    }
    r := Success(merged);
  }

  lemma TagsInRange(runs: seq<Run<seq<int>>>, clauses: seq<Clause>, g: Granularity)
    requires AllValid(clauses) && CanonicalRuns(runs) && CanonicalTags(runs) && RunsSelect(runs, clauses, g)
    requires AllYearsValid(runs)
    ensures AllValid(AsRecurring(g, runs))
  {
    forall i, k | 0 <= i < |runs| && 0 <= k < |runs[i].tag| ensures 1 <= runs[i].tag[k] <= Limit(g) {
      var x := SomePoint(runs[i].span);
      LabelOfCovering(runs, i, x);
      assert InTag(LabelAt(runs, x), runs[i].tag[k]);
      var j :| 0 <= j < |clauses| && ClauseSelects(clauses[j], g, x, runs[i].tag[k]);
      assert ValidClause(clauses[j]);
    }
  }

  /** The runs are the canonical description of the triples selected at `g`. */
  ghost predicate Describes(runs: seq<Run<seq<int>>>, clauses: seq<Clause>, g: Granularity) {
    CanonicalRuns(runs) && CanonicalTags(runs) && RunsSelect(runs, clauses, g)
  }

  /** `_merge_recurring` over both granularities, month before quarter. */
  method MergeRecurring(clauses: seq<Clause>) returns (r: Result<seq<Clause>>, ghost p: Parts)
    requires AllValid(clauses)
    requires forall i :: 0 <= i < |clauses| ==> clauses[i].Recurring?
    ensures r.Failure? <==> YearEdge(clauses)
    ensures p.absolute == [] && forall g :: Describes(p.Runs(g), clauses, g)
    ensures r.Success? ==> r.value == Assemble(p) && AllValid(r.value)
  {
    var grouped := GroupPeriods(clauses);
    var months := GranularityRuns(clauses, Month, if Month in grouped then grouped[Month] else []);
    var quarters := GranularityRuns(clauses, Quarter, if Quarter in grouped then grouped[Quarter] else []);
    p := Parts([], months, quarters);
    assert p.Runs(Month) == months && p.Runs(Quarter) == quarters;
    RunsBuildableIffNoEdge(months, clauses, Month);
    RunsBuildableIffNoEdge(quarters, clauses, Quarter);
    var first := BuildClauses(Month, months);
    if first.Failure? {
      assert TopEdge(clauses, Month) || BottomEdge(clauses, Month);
      return Failure, p;
    }
    var second := BuildClauses(Quarter, quarters);
    if second.Failure? {
      assert TopEdge(clauses, Quarter) || BottomEdge(clauses, Quarter);
      return Failure, p;
    }
    TagsInRange(months, clauses, Month);
    TagsInRange(quarters, clauses, Quarter);
    r := Success(first.value + second.value);
    assert r.value == Assemble(p);
  }

  method GranularityRuns(clauses: seq<Clause>, g: Granularity, pairs: seq<Period>) returns (runs: seq<Run<seq<int>>>)
    requires AllValid(clauses) && PairsOf(pairs, clauses, g)
    ensures Describes(runs, clauses, g)
  {
    forall v, span | (v, span) in pairs ensures Ordered(span) {
      assert HasPeriod(clauses, g, v, span);
      var i :| 0 <= i < |clauses| && ClauseHasPeriod(clauses[i], g, v, span);
      assert ValidClause(clauses[i]);
    }
    runs := RunsOf(pairs);
    forall year, v ensures InTag(LabelAt(runs, year), v) <==> Selects(clauses, g, year, v) {
      PairsSelectIsSelects(pairs, clauses, g, year, v);
    }
  }

  // ------------------------------------------------------------- normalisation

  function AbsoluteOf(clauses: seq<Clause>): seq<Clause> {
    if clauses == [] then []
    else (if clauses[0].Absolute? then [clauses[0]] else []) + AbsoluteOf(clauses[1..])
  }

  function RecurringOf(clauses: seq<Clause>): seq<Clause> {
    if clauses == [] then []
    else (if clauses[0].Recurring? then [clauses[0]] else []) + RecurringOf(clauses[1..])
  }

  lemma {:induction false} KindMembers(clauses: seq<Clause>, c: Clause)
    ensures c in AbsoluteOf(clauses) <==> c.Absolute? && c in clauses
    ensures c in RecurringOf(clauses) <==> c.Recurring? && c in clauses
  {
    if clauses == [] {
    } else {
      KindMembers(clauses[1..], c);
      assert clauses == [clauses[0]] + clauses[1..];
    }
  }

  lemma SameAbsolute(a: seq<Clause>, b: seq<Clause>)
    requires forall c: Clause :: c.Absolute? ==> (c in a <==> c in b)
    ensures forall day :: AbsoluteCovers(a, day) <==> AbsoluteCovers(b, day)
    ensures forall day :: KeepsDay(a, day) <==> KeepsDay(b, day)
  {
    forall day ensures AbsoluteCovers(a, day) <==> AbsoluteCovers(b, day) {
      if AbsoluteCovers(a, day) {
        var i :| 0 <= i < |a| && a[i].Absolute? && Covers(a[i].days, day);
        assert a[i] in b;
      }
      if AbsoluteCovers(b, day) {
        var i :| 0 <= i < |b| && b[i].Absolute? && Covers(b[i].days, day);
        assert b[i] in a;
      }
    }
  }

  lemma SameRecurring(a: seq<Clause>, b: seq<Clause>)
    requires forall c: Clause :: c.Recurring? ==> (c in a <==> c in b)
    ensures forall g, year, v :: Selects(a, g, year, v) <==> Selects(b, g, year, v)
  {
    forall g, year, v ensures Selects(a, g, year, v) <==> Selects(b, g, year, v) {
      if Selects(a, g, year, v) {
        var i :| 0 <= i < |a| && ClauseSelects(a[i], g, year, v);
        assert a[i] in b;
      }
      if Selects(b, g, year, v) {
        var i :| 0 <= i < |b| && ClauseSelects(b[i], g, year, v);
        assert b[i] in a;
      }
    }
  }

  /** The year edge only depends on which triples are selected. */
  lemma SameTriplesSameEdge(a: seq<Clause>, b: seq<Clause>)
    requires AllValid(a) && AllValid(b)
    requires forall g, year, v :: Selects(a, g, year, v) <==> Selects(b, g, year, v)
    ensures YearEdge(a) <==> YearEdge(b)
  {
    forall g ensures TopEdge(a, g) == TopEdge(b, g) && BottomEdge(a, g) == BottomEdge(b, g) {
      TopEdgeMeaning(a, g);
      TopEdgeMeaning(b, g);
      BottomEdgeMeaning(a, g);
      BottomEdgeMeaning(b, g);
      SameDrops(a, b, g, MAX_YEAR, MAX_YEAR + 1);
      SameDrops(a, b, g, MIN_YEAR, MIN_YEAR - 1);
    }
  }

  lemma SameDrops(a: seq<Clause>, b: seq<Clause>, g: Granularity, from: int, to: int)
    requires forall g, year, v :: Selects(a, g, year, v) <==> Selects(b, g, year, v)
    ensures SelectsSome(a, g, to) == SelectsSome(b, g, to)
    ensures DropsValue(a, g, from, to) == DropsValue(b, g, from, to)
  {
    assert forall v :: Selects(a, g, to, v) <==> Selects(b, g, to, v);
    assert forall v :: Selects(a, g, from, v) <==> Selects(b, g, from, v);
  }

  lemma MembersValid(clauses: seq<Clause>, part: seq<Clause>)
    requires AllValid(clauses) && forall i :: 0 <= i < |part| ==> part[i] in clauses
    ensures AllValid(part)
  {
    forall i | 0 <= i < |part| ensures ValidClause(part[i]) {
      var k :| 0 <= k < |clauses| && clauses[k] == part[i];
    }
  }

  /** The dispatch loop of `normalize_date_selection`. */
  method SplitByKind(clauses: seq<Clause>) returns (absolute: seq<Clause>, recurring: seq<Clause>)
    ensures absolute == AbsoluteOf(clauses) && recurring == RecurringOf(clauses)
  {
    absolute, recurring := [], [];
    for n := 0 to |clauses|
      invariant absolute + AbsoluteOf(clauses[n..]) == AbsoluteOf(clauses)
      invariant recurring + RecurringOf(clauses[n..]) == RecurringOf(clauses)
    {
      assert clauses[n..] == [clauses[n]] + clauses[n + 1..];
      match clauses[n] {
        case Recurring(_, _, _) => recurring := recurring + [clauses[n]];
        case Absolute(_) => absolute := absolute + [clauses[n]];
      }
    }
  }

  /** The two kinds of clause carry the whole denotation. */
  lemma KindsCarryDenotation(clauses: seq<Clause>)
    requires AllValid(clauses)
    ensures AllValid(AbsoluteOf(clauses)) && AllValid(RecurringOf(clauses))
    ensures forall i :: 0 <= i < |AbsoluteOf(clauses)| ==> AbsoluteOf(clauses)[i].Absolute?
    ensures forall i :: 0 <= i < |RecurringOf(clauses)| ==> RecurringOf(clauses)[i].Recurring?
    ensures forall day :: KeepsDay(AbsoluteOf(clauses), day) <==> KeepsDay(clauses, day)
    ensures forall g, year, v :: Selects(RecurringOf(clauses), g, year, v) <==> Selects(clauses, g, year, v)
    ensures YearEdge(RecurringOf(clauses)) <==> YearEdge(clauses)
  {
    forall c ensures c in AbsoluteOf(clauses) <==> c.Absolute? && c in clauses {
      KindMembers(clauses, c);
    }
    forall c ensures c in RecurringOf(clauses) <==> c.Recurring? && c in clauses {
      KindMembers(clauses, c);
    }
    assert forall i :: 0 <= i < |AbsoluteOf(clauses)| ==> AbsoluteOf(clauses)[i] in AbsoluteOf(clauses);
    assert forall i :: 0 <= i < |RecurringOf(clauses)| ==> RecurringOf(clauses)[i] in RecurringOf(clauses);
    MembersValid(clauses, AbsoluteOf(clauses));
    MembersValid(clauses, RecurringOf(clauses));
    SameAbsolute(AbsoluteOf(clauses), clauses);
    SameRecurring(RecurringOf(clauses), clauses);
    SameTriplesSameEdge(RecurringOf(clauses), clauses);
  }

  /** `normalize_date_selection`: the canonical form of any list of clauses, or an
      error exactly when that form would need a year outside the valid range. */
  method NormalizeDateSelection(clauses: seq<Clause>) returns (r: Result<Selection>)
    requires AllValid(clauses)
    ensures r.Failure? <==> YearEdge(clauses)
    ensures r.Success? ==> IsNormalForm(clauses, r.value)
  {
    var absolute, recurring := SplitByKind(clauses);
    KindsCarryDenotation(clauses);
    var merged := MergeAbsolute(absolute);
    var rest, p := MergeRecurring(recurring);
    if rest.Failure? {
      return Failure;
    }
    var selection := AsAbsolute(merged) + rest.value;
    AssembledIsNormalForm(clauses, recurring, merged, p, selection);
    r := Success(selection);
  }

  lemma AssembledIsNormalForm(clauses: seq<Clause>, recurring: seq<Clause>, merged: seq<Interval>, rest: Parts,
                              selection: Selection)
    requires CanonicalIntervals(merged) && Interval(None, None) !in merged
    requires forall i :: 0 <= i < |merged| ==> IsDay(merged[i].lo) && IsDay(merged[i].hi)
    requires forall day :: CoversAny(merged, day) <==> KeepsDay(clauses, day)
    requires rest.absolute == [] && forall g :: Describes(rest.Runs(g), recurring, g)
    requires forall g, year, v :: Selects(recurring, g, year, v) <==> Selects(clauses, g, year, v)
    requires AllValid(Assemble(rest))
    requires selection == AsAbsolute(merged) + Assemble(rest)
    ensures IsNormalForm(clauses, selection)
  {
    var p := rest.(absolute := merged);
    AssembledCanonical(merged, rest, recurring, p);
    AssembledSplits(merged, rest, p);
    AssembledValid(merged, rest);
    forall day ensures AbsoluteCovers(selection, day) <==> KeepsDay(clauses, day) {
      AssembleCovers(p, day);
    }
    forall g, year, v ensures Selects(selection, g, year, v) <==> Selects(clauses, g, year, v) {
      AssembleSelects(p, g, year, v);
      assert Describes(rest.Runs(g), recurring, g) && p.Runs(g) == rest.Runs(g);
    }
  }

  lemma AssembledCanonical(merged: seq<Interval>, rest: Parts, recurring: seq<Clause>, p: Parts)
    requires CanonicalIntervals(merged) && Interval(None, None) !in merged
    requires forall g :: Describes(rest.Runs(g), recurring, g)
    requires p == rest.(absolute := merged)
    ensures CanonicalParts(p)
  {
    forall g ensures CanonicalRuns(p.Runs(g)) && CanonicalTags(p.Runs(g)) {
      assert p.Runs(g) == rest.Runs(g);
      assert Describes(rest.Runs(g), recurring, g);
    }
  }

  lemma AssembledSplits(merged: seq<Interval>, rest: Parts, p: Parts)
    requires rest.absolute == [] && p == rest.(absolute := merged)
    ensures Assemble(p) == AsAbsolute(merged) + Assemble(rest)
  {
    assert Assemble(rest) == AsRecurring(Month, rest.months) + AsRecurring(Quarter, rest.quarters);
  }

  lemma AssembledValid(merged: seq<Interval>, rest: Parts)
    requires CanonicalIntervals(merged)
    requires forall i :: 0 <= i < |merged| ==> IsDay(merged[i].lo) && IsDay(merged[i].hi)
    requires AllValid(Assemble(rest))
    ensures AllValid(AsAbsolute(merged) + Assemble(rest))
  {
    var whole := AsAbsolute(merged) + Assemble(rest);
    forall i | 0 <= i < |whole| ensures ValidClause(whole[i]) {
      if i < |merged| {
        assert whole[i] == Absolute(merged[i]);
      } else {
        assert whole[i] == Assemble(rest)[i - |merged|];
      }
    }
  }
}
