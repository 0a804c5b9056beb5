/** Date selections: clauses, matching, and the canonical form whose value is
    hashed into a plan identity (edgar_sec/domain/filing_catalog/filters.py). */
module DateSelection {
  import opened Common
  import opened Sorting
  import opened Intervals
  import opened YearSegments
  import opened Calendar

  const MIN_YEAR := 1900

  type YearBound = y: int | 2100 <= y <= 9999 witness 2100

  /** The upper year bound moves with the clock, so its value is left open. */
  const MAX_YEAR: YearBound

  datatype Granularity = Month | Quarter

  /** An absolute clause holds day ordinals, a recurring clause years. */
  datatype Clause =
    | Absolute(days: Interval)
    | Recurring(granularity: Granularity, values: seq<int>, years: Interval)

  type Selection = seq<Clause>

  function Limit(g: Granularity): int {
    if g == Month then 12 else 4
  }

  predicate IsValidYear(y: int) {
    MIN_YEAR <= y <= MAX_YEAR
  }

  predicate ValidYears(years: Interval) {
    (years.lo.Some? ==> IsValidYear(years.lo.value)) && (years.hi.Some? ==> IsValidYear(years.hi.value))
  }

  predicate IsDay(bound: Option<int>) {
    bound.Some? ==> 1 <= bound.value <= MAX_ORDINAL
  }

  /** What the two `__post_init__` checks and the `date` type let through. */
  predicate ValidClause(c: Clause) {
    match c
    case Absolute(days) => Ordered(days) && IsDay(days.lo) && IsDay(days.hi)
    case Recurring(g, values, years) =>
      && values != []
      && (forall i :: 0 <= i < |values| ==> 1 <= values[i] <= Limit(g))
      && ValidYears(years)
      && Ordered(years)
  }

  predicate AllValid(clauses: seq<Clause>) {
    forall i :: 0 <= i < |clauses| ==> ValidClause(clauses[i])
  }

  // ----------------------------------------------------------------- matching

  function PeriodOf(g: Granularity, d: Date): int {
    if g == Quarter then (d.month - 1) / 3 + 1 else d.month
  }

  predicate ClauseMatches(c: Clause, d: Date)
    requires ValidDate(d)
  {
    match c
    case Absolute(days) => Covers(days, Ordinal(d))
    case Recurring(g, values, years) => Covers(years, d.year) && PeriodOf(g, d) in values
  }

  /** `date_selection_matches`; `None` is a missing or unreadable report date. */
  predicate SelectionMatches(selection: Selection, target: Option<Date>)
    requires target.Some? ==> ValidDate(target.value)
  {
    if selection == [] then true
    else if target.None? then false
    else exists i :: 0 <= i < |selection| && ClauseMatches(selection[i], target.value)
  }

  // -------------------------------------------------------------- denotations

  ghost predicate AbsoluteCovers(clauses: seq<Clause>, day: int) {
    exists i :: 0 <= i < |clauses| && clauses[i].Absolute? && Covers(clauses[i].days, day)
  }

  /** Some clause of granularity `g` selects period `v` of `year`. */
  ghost predicate Selects(clauses: seq<Clause>, g: Granularity, year: int, v: int) {
    exists i :: 0 <= i < |clauses| && ClauseSelects(clauses[i], g, year, v)
  }

  predicate ClauseSelects(c: Clause, g: Granularity, year: int, v: int) {
    c.Recurring? && c.granularity == g && v in c.values && Covers(c.years, year)
  }

  ghost predicate CoversEveryDay(clauses: seq<Clause>) {
    forall day :: AbsoluteCovers(clauses, day)
  }

  /** A day the canonical form keeps: all-date coverage keeps none. */
  ghost predicate KeepsDay(clauses: seq<Clause>, day: int) {
    AbsoluteCovers(clauses, day) && !CoversEveryDay(clauses)
  }

  /** Same days kept and same (granularity, year, value) triples selected. */
  ghost predicate Equivalent(a: seq<Clause>, b: seq<Clause>) {
    && (forall day :: KeepsDay(a, day) <==> KeepsDay(b, day))
    && (forall g, year, v :: Selects(a, g, year, v) <==> Selects(b, g, year, v))
  }

  // ----------------------------------------------------------- canonical form

  datatype Parts = Parts(absolute: seq<Interval>, months: seq<Run<seq<int>>>, quarters: seq<Run<seq<int>>>)
  {
    function Runs(g: Granularity): seq<Run<seq<int>>> {
      if g == Month then months else quarters
    }
  }

  function AsAbsolute(spans: seq<Interval>): seq<Clause> {
    seq(|spans|, i requires 0 <= i < |spans| => Absolute(spans[i]))
  }

  function AsRecurring(g: Granularity, runs: seq<Run<seq<int>>>): seq<Clause> {
    seq(|runs|, i requires 0 <= i < |runs| => Recurring(g, runs[i].tag, runs[i].span))
  }

  function Assemble(p: Parts): Selection {
    AsAbsolute(p.absolute) + (AsRecurring(Month, p.months) + AsRecurring(Quarter, p.quarters))
  }

  /** Every tag is a nonempty ascending tuple. */
  ghost predicate CanonicalTags(runs: seq<Run<seq<int>>>) {
    forall i :: 0 <= i < |runs| ==> runs[i].tag != [] && StrictlyAscending(runs[i].tag)
  }

  ghost predicate CanonicalParts(p: Parts) {
    && CanonicalIntervals(p.absolute)
    && Interval(None, None) !in p.absolute
    && (forall g :: CanonicalRuns(p.Runs(g)) && CanonicalTags(p.Runs(g)))
  }

  /** Absolute intervals first, then maximal month runs, then quarter runs. */
  ghost predicate CanonicalSelection(selection: Selection) {
    AllValid(selection) && exists p :: CanonicalParts(p) && selection == Assemble(p)
  }

  /** `selection` is the canonical form of `clauses`. */
  ghost predicate IsNormalForm(clauses: seq<Clause>, selection: Selection) {
    && CanonicalSelection(selection)
    && (forall day :: AbsoluteCovers(selection, day) <==> KeepsDay(clauses, day))
    && (forall g, year, v :: Selects(selection, g, year, v) <==> Selects(clauses, g, year, v))
  }

  lemma AssembleCovers(p: Parts, day: int)
    ensures AbsoluteCovers(Assemble(p), day) <==> CoversAny(p.absolute, day)
  {
    var s := Assemble(p);
    if CoversAny(p.absolute, day) {
      var i :| 0 <= i < |p.absolute| && Covers(p.absolute[i], day);
      assert s[i] == Absolute(p.absolute[i]);
    }
    if AbsoluteCovers(s, day) {
      var i :| 0 <= i < |s| && s[i].Absolute? && Covers(s[i].days, day);
      assert i < |p.absolute| && s[i] == Absolute(p.absolute[i]);
    }
  }

  lemma {:induction false} LabelOfCovering<T>(rs: seq<Run<T>>, i: nat, x: int)
    requires CanonicalRuns(rs) && i < |rs| && Covers(rs[i].span, x)
    ensures LabelAt(rs, x) == Some(rs[i].tag)
  {
    if i > 0 {
      EndsIncrease(rs, 0, i);
      CanonicalTail(rs);
      LabelOfCovering(rs[1..], i - 1, x);
    }
  }

  lemma {:induction false} LabelHasCovering<T>(rs: seq<Run<T>>, x: int)
    requires LabelAt(rs, x).Some?
    ensures exists i :: 0 <= i < |rs| && Covers(rs[i].span, x) && LabelAt(rs, x) == Some(rs[i].tag)
  {
    if !Covers(rs[0].span, x) {
      LabelHasCovering(rs[1..], x);
      var i :| 0 <= i < |rs[1..]| && Covers(rs[1..][i].span, x) && LabelAt(rs[1..], x) == Some(rs[1..][i].tag);
      assert rs[i + 1] == rs[1..][i];
    }
  }

  ghost predicate InTag(tag: Option<seq<int>>, v: int) {
    tag.Some? && v in tag.value
  }

  function RunsStart(p: Parts, g: Granularity): nat {
    |p.absolute| + if g == Month then 0 else |p.months|
  }

  lemma ClauseOfRun(p: Parts, g: Granularity, i: nat)
    requires i < |p.Runs(g)|
    ensures RunsStart(p, g) + i < |Assemble(p)|
    ensures Assemble(p)[RunsStart(p, g) + i] == Recurring(g, p.Runs(g)[i].tag, p.Runs(g)[i].span)
  {}

  lemma RunOfClause(p: Parts, g: Granularity, k: nat)
    requires k < |Assemble(p)| && Assemble(p)[k].Recurring? && Assemble(p)[k].granularity == g
    ensures 0 <= k - RunsStart(p, g) < |p.Runs(g)|
    ensures Assemble(p)[k] == Recurring(g, p.Runs(g)[k - RunsStart(p, g)].tag, p.Runs(g)[k - RunsStart(p, g)].span)
  {}

  lemma CanonicalRunsOf(p: Parts, g: Granularity)
    requires CanonicalParts(p)
    ensures CanonicalRuns(p.Runs(g)) && CanonicalTags(p.Runs(g))
  {}

  lemma AssembleSelects(p: Parts, g: Granularity, year: int, v: int)
    requires CanonicalParts(p)
    ensures Selects(Assemble(p), g, year, v) <==> InTag(LabelAt(p.Runs(g), year), v)
  {
    CanonicalRunsOf(p, g);
    RunsSelectIff(p, g, year, v);
  }

  lemma RunsSelectIff(p: Parts, g: Granularity, year: int, v: int)
    requires CanonicalRuns(p.Runs(g))
    ensures Selects(Assemble(p), g, year, v) <==> InTag(LabelAt(p.Runs(g), year), v)
  {
    var s, runs := Assemble(p), p.Runs(g);
    if InTag(LabelAt(runs, year), v) {
      LabelHasCovering(runs, year);
      var i :| 0 <= i < |runs| && Covers(runs[i].span, year) && LabelAt(runs, year) == Some(runs[i].tag);
      ClauseOfRun(p, g, i);
      assert ClauseSelects(s[RunsStart(p, g) + i], g, year, v);
    }
    if Selects(s, g, year, v) {
      var k :| 0 <= k < |s| && ClauseSelects(s[k], g, year, v);
      RunOfClause(p, g, k);
      LabelOfCovering(runs, k - RunsStart(p, g), year);
    }
  }

  lemma TagsAscend(runs: seq<Run<seq<int>>>, x: int)
    requires CanonicalTags(runs) && LabelAt(runs, x).Some?
    ensures LabelAt(runs, x).value != [] && StrictlyAscending(LabelAt(runs, x).value)
  {
    LabelHasCovering(runs, x);
  }

  /** Run lists with ascending tags are determined by which values they select. */
  lemma RunsUnique(a: seq<Run<seq<int>>>, b: seq<Run<seq<int>>>)
    requires CanonicalRuns(a) && CanonicalTags(a) && CanonicalRuns(b) && CanonicalTags(b)
    requires forall y, v :: InTag(LabelAt(a, y), v) <==> InTag(LabelAt(b, y), v)
    ensures a == b
  {
    forall y ensures LabelAt(a, y) == LabelAt(b, y) {
      var s, t := LabelAt(a, y), LabelAt(b, y);
      if s.Some? {
        TagsAscend(a, y);
        assert InTag(s, s.value[0]);
        assert InTag(t, s.value[0]);
      }
      if t.Some? {
        TagsAscend(b, y);
        assert InTag(t, t.value[0]);
        assert InTag(s, t.value[0]);
      }
      if s.Some? {
        forall v ensures v in s.value <==> v in t.value {
          assert InTag(s, v) <==> InTag(t, v);
        }
        AscendingUnique(s.value, t.value);
      }
    }
    CanonicalRunsUnique(a, b);
  }

  /** Canonical selections with one denotation are one value. */
  lemma CanonicalSelectionUnique(x: Selection, y: Selection)
    requires CanonicalSelection(x) && CanonicalSelection(y)
    requires forall day :: AbsoluteCovers(x, day) <==> AbsoluteCovers(y, day)
    requires forall g, year, v :: Selects(x, g, year, v) <==> Selects(y, g, year, v)
    ensures x == y
  {
    var p :| CanonicalParts(p) && x == Assemble(p);
    var q :| CanonicalParts(q) && y == Assemble(q);
    forall day ensures CoversAny(p.absolute, day) <==> CoversAny(q.absolute, day) {
      AssembleCovers(p, day);
      AssembleCovers(q, day);
    }
    CanonicalIntervalsUnique(p.absolute, q.absolute);
    forall g ensures p.Runs(g) == q.Runs(g) {
      forall year, v ensures InTag(LabelAt(p.Runs(g), year), v) <==> InTag(LabelAt(q.Runs(g), year), v) {
        AssembleSelects(p, g, year, v);
        AssembleSelects(q, g, year, v);
      }
      RunsUnique(p.Runs(g), q.Runs(g));
    }
    assert p.months == p.Runs(Month) && p.quarters == p.Runs(Quarter);
    assert q.months == q.Runs(Month) && q.quarters == q.Runs(Quarter);
  }

  /** Canonicity: two clause lists have the same canonical form exactly when they
      keep the same days and select the same recurring triples. */
  lemma NormalFormsEqualIffEquivalent(a: seq<Clause>, x: Selection, b: seq<Clause>, y: Selection)
    requires IsNormalForm(a, x) && IsNormalForm(b, y)
    ensures x == y <==> Equivalent(a, b)
  {
    if Equivalent(a, b) {
      CanonicalSelectionUnique(x, y);
    }
    if x == y {
      assert forall day :: KeepsDay(a, day) <==> AbsoluteCovers(x, day);
      assert forall day :: KeepsDay(b, day) <==> AbsoluteCovers(x, day);
    }
  }

  /** A canonical selection never covers every day. */
  lemma CanonicalLeavesADay(x: Selection)
    requires CanonicalSelection(x)
    ensures !CoversEveryDay(x)
  {
    var p :| CanonicalParts(p) && x == Assemble(p);
    var all := [Interval(None, None)];
    assert all[0] in all;
    if CoversEveryDay(x) {
      forall day ensures CoversAny(p.absolute, day) <==> CoversAny(all, day) {
        AssembleCovers(p, day);
        assert Covers(all[0], day);
      }
      CanonicalIntervalsUnique(p.absolute, all);
    }
  }

  /** Idempotence: a canonical selection is its own, and only, normal form. */
  lemma NormalFormIdempotent(x: Selection, y: Selection)
    requires CanonicalSelection(x)
    ensures IsNormalForm(x, y) <==> y == x
  {
    CanonicalLeavesADay(x);
    if IsNormalForm(x, y) {
      CanonicalSelectionUnique(x, y);
    }
  }

  // ------------------------------------------------------ meaning preservation

  ghost predicate HasRecurring(clauses: seq<Clause>) {
    exists i :: 0 <= i < |clauses| && clauses[i].Recurring?
  }

  ghost predicate RecurringMatches(clauses: seq<Clause>, d: Date) {
    exists g :: Selects(clauses, g, d.year, PeriodOf(g, d))
  }

  lemma MatchesByDenotation(clauses: seq<Clause>, d: Date)
    requires ValidDate(d) && clauses != []
    ensures SelectionMatches(clauses, Some(d)) <==> AbsoluteCovers(clauses, Ordinal(d)) || RecurringMatches(clauses, d)
  {
    if SelectionMatches(clauses, Some(d)) {
      var i :| 0 <= i < |clauses| && ClauseMatches(clauses[i], d);
      if clauses[i].Recurring? {
        var g := clauses[i].granularity;
        assert ClauseSelects(clauses[i], g, d.year, PeriodOf(g, d));
        assert Selects(clauses, g, d.year, PeriodOf(g, d));
      }
    }
    if AbsoluteCovers(clauses, Ordinal(d)) {
      var i :| 0 <= i < |clauses| && clauses[i].Absolute? && Covers(clauses[i].days, Ordinal(d));
      assert ClauseMatches(clauses[i], d);
    }
    if RecurringMatches(clauses, d) {
      var g :| Selects(clauses, g, d.year, PeriodOf(g, d));
      var i :| 0 <= i < |clauses| && ClauseSelects(clauses[i], g, d.year, PeriodOf(g, d));
      assert ClauseMatches(clauses[i], d);
    }
  }

  /** An ordered interval contains a point. */
  function SomePoint(iv: Interval): (x: int)
    requires Ordered(iv)
    ensures Covers(iv, x)
  {
    if iv.lo.Some? then iv.lo.value else if iv.hi.Some? then iv.hi.value else 0
  }

  /** A valid clause denotes something. */
  lemma ClauseDenotes(clauses: seq<Clause>, i: nat)
    requires AllValid(clauses) && i < |clauses|
    ensures clauses[i].Absolute? ==> exists day :: AbsoluteCovers(clauses, day)
    ensures clauses[i].Recurring? ==> exists g, year, v :: Selects(clauses, g, year, v)
  {
    var c := clauses[i];
    assert ValidClause(c);
    if c.Absolute? {
      assert AbsoluteCovers(clauses, SomePoint(c.days));
    } else {
      assert ClauseSelects(c, c.granularity, SomePoint(c.years), c.values[0]);
      assert Selects(clauses, c.granularity, SomePoint(c.years), c.values[0]);
    }
  }

  /** The canonical form is empty exactly when there is no recurring clause and the
      absolute ones keep no day. */
  lemma NormalFormEmpty(clauses: seq<Clause>, selection: Selection)
    requires AllValid(clauses) && IsNormalForm(clauses, selection)
    ensures selection == [] <==> !HasRecurring(clauses) && (clauses == [] || CoversEveryDay(clauses))
  {
    if selection == [] {
      forall i | 0 <= i < |clauses| ensures !clauses[i].Recurring? {
        ClauseDenotes(clauses, i);
        assert forall g, year, v :: !Selects(selection, g, year, v);
      }
      if clauses != [] {
        ClauseDenotes(clauses, 0);
        var day :| AbsoluteCovers(clauses, day);
        assert !KeepsDay(clauses, day);
      }
    } else {
      ClauseDenotes(selection, 0);
      if selection[0].Absolute? {
        var day :| AbsoluteCovers(selection, day);
        assert KeepsDay(clauses, day);
      } else {
        var g, year, v :| Selects(selection, g, year, v);
        assert Selects(clauses, g, year, v);
      }
    }
  }

  /** Normalisation preserves which dates match, except that all-date absolute
      coverage is dropped even when recurring clauses remain to filter. */
  lemma NormalFormPreservesMatches(clauses: seq<Clause>, selection: Selection, d: Date)
    requires AllValid(clauses) && IsNormalForm(clauses, selection) && ValidDate(d)
    ensures SelectionMatches(selection, Some(d)) == SelectionMatches(clauses, Some(d))
            <==> !(CoversEveryDay(clauses) && HasRecurring(clauses) && !RecurringMatches(clauses, d))
  {
    NormalFormEmpty(clauses, selection);
    if clauses != [] {
      MatchesByDenotation(clauses, d);
      if selection != [] {
        MatchesByDenotation(selection, d);
        assert AbsoluteCovers(selection, Ordinal(d)) <==> KeepsDay(clauses, Ordinal(d));
        assert RecurringMatches(selection, d) <==> RecurringMatches(clauses, d);
      }
    }
    if CoversEveryDay(clauses) {
      assert AbsoluteCovers(clauses, Ordinal(d));
    }
  }

  /** For an unreadable date the two differ exactly when dropping all-date coverage
      turns a filtering selection into the empty one. */
  lemma NormalFormOnUnreadableDate(clauses: seq<Clause>, selection: Selection)
    requires AllValid(clauses) && IsNormalForm(clauses, selection)
    ensures SelectionMatches(selection, None) == SelectionMatches(clauses, None)
            <==> !(CoversEveryDay(clauses) && !HasRecurring(clauses))
  {
    NormalFormEmpty(clauses, selection);
    if CoversEveryDay(clauses) {
      assert AbsoluteCovers(clauses, 0);
    }
  }

  // ---------------------------------------------------------- the year-edge error

  ghost predicate OpenTopped(clauses: seq<Clause>, g: Granularity, i: int) {
    0 <= i < |clauses| && clauses[i].Recurring? && clauses[i].granularity == g && clauses[i].years.hi == None
  }

  ghost predicate OpenBottomed(clauses: seq<Clause>, g: Granularity, i: int) {
    0 <= i < |clauses| && clauses[i].Recurring? && clauses[i].granularity == g && clauses[i].years.lo == None
  }

  ghost predicate EndsAtTop(clauses: seq<Clause>, g: Granularity, i: int) {
    0 <= i < |clauses| && clauses[i].Recurring? && clauses[i].granularity == g && clauses[i].years.hi == Some(MAX_YEAR)
  }

  ghost predicate StartsAtBottom(clauses: seq<Clause>, g: Granularity, i: int) {
    0 <= i < |clauses| && clauses[i].Recurring? && clauses[i].granularity == g && clauses[i].years.lo == Some(MIN_YEAR)
  }

  /** Some clause has no last year, while another ends in the last valid year and
      selects a value that no clause without a last year selects. */
  ghost predicate TopEdge(clauses: seq<Clause>, g: Granularity) {
    && (exists i :: OpenTopped(clauses, g, i))
    && (exists k, v :: EndsAtTop(clauses, g, k) && v in clauses[k].values
                       && forall i :: OpenTopped(clauses, g, i) ==> v !in clauses[i].values)
  }

  /** The same at the first valid year. */
  ghost predicate BottomEdge(clauses: seq<Clause>, g: Granularity) {
    && (exists i :: OpenBottomed(clauses, g, i))
    && (exists k, v :: StartsAtBottom(clauses, g, k) && v in clauses[k].values
                       && forall i :: OpenBottomed(clauses, g, i) ==> v !in clauses[i].values)
  }

  /** When the canonical form needs a year outside the valid range. */
  ghost predicate YearEdge(clauses: seq<Clause>) {
    exists g :: TopEdge(clauses, g) || BottomEdge(clauses, g)
  }

  /** Selecting past the last valid year takes a clause with no last year. */
  lemma SelectsAboveTop(clauses: seq<Clause>, g: Granularity, year: int, v: int)
    requires AllValid(clauses) && MAX_YEAR < year
    ensures Selects(clauses, g, year, v) <==> exists i :: OpenTopped(clauses, g, i) && v in clauses[i].values
  {
    if Selects(clauses, g, year, v) {
      var i :| 0 <= i < |clauses| && ClauseSelects(clauses[i], g, year, v);
      assert ValidClause(clauses[i]);
      assert OpenTopped(clauses, g, i);
    }
    if i :| OpenTopped(clauses, g, i) && v in clauses[i].values {
      assert ValidClause(clauses[i]);
      assert ClauseSelects(clauses[i], g, year, v);
    }
  }

  lemma SelectsBelowBottom(clauses: seq<Clause>, g: Granularity, year: int, v: int)
    requires AllValid(clauses) && year < MIN_YEAR
    ensures Selects(clauses, g, year, v) <==> exists i :: OpenBottomed(clauses, g, i) && v in clauses[i].values
  {
    if Selects(clauses, g, year, v) {
      var i :| 0 <= i < |clauses| && ClauseSelects(clauses[i], g, year, v);
      assert ValidClause(clauses[i]);
      assert OpenBottomed(clauses, g, i);
    }
    if i :| OpenBottomed(clauses, g, i) && v in clauses[i].values {
      assert ValidClause(clauses[i]);
      assert ClauseSelects(clauses[i], g, year, v);
    }
  }

  lemma SelectsAtTop(clauses: seq<Clause>, g: Granularity, v: int)
    requires AllValid(clauses)
    ensures Selects(clauses, g, MAX_YEAR, v) <==>
            Selects(clauses, g, MAX_YEAR + 1, v) || exists k :: EndsAtTop(clauses, g, k) && v in clauses[k].values
  {
    SelectsAboveTop(clauses, g, MAX_YEAR + 1, v);
    if Selects(clauses, g, MAX_YEAR, v) {
      var i :| 0 <= i < |clauses| && ClauseSelects(clauses[i], g, MAX_YEAR, v);
      assert ValidClause(clauses[i]);
      assert OpenTopped(clauses, g, i) || EndsAtTop(clauses, g, i);
    }
    if k :| EndsAtTop(clauses, g, k) && v in clauses[k].values {
      assert ValidClause(clauses[k]);
      assert ClauseSelects(clauses[k], g, MAX_YEAR, v);
    }
    if i :| OpenTopped(clauses, g, i) && v in clauses[i].values {
      assert ValidClause(clauses[i]);
      assert ClauseSelects(clauses[i], g, MAX_YEAR, v);
    }
  }

  lemma SelectsAtBottom(clauses: seq<Clause>, g: Granularity, v: int)
    requires AllValid(clauses)
    ensures Selects(clauses, g, MIN_YEAR, v) <==>
            Selects(clauses, g, MIN_YEAR - 1, v) || exists k :: StartsAtBottom(clauses, g, k) && v in clauses[k].values
  {
    SelectsBelowBottom(clauses, g, MIN_YEAR - 1, v);
    if Selects(clauses, g, MIN_YEAR, v) {
      var i :| 0 <= i < |clauses| && ClauseSelects(clauses[i], g, MIN_YEAR, v);
      assert ValidClause(clauses[i]);
      assert OpenBottomed(clauses, g, i) || StartsAtBottom(clauses, g, i);
    }
    if k :| StartsAtBottom(clauses, g, k) && v in clauses[k].values {
      assert ValidClause(clauses[k]);
      assert ClauseSelects(clauses[k], g, MIN_YEAR, v);
    }
    if i :| OpenBottomed(clauses, g, i) && v in clauses[i].values {
      assert ValidClause(clauses[i]);
      assert ClauseSelects(clauses[i], g, MIN_YEAR, v);
    }
  }

  ghost predicate SelectsSome(clauses: seq<Clause>, g: Granularity, year: int) {
    exists v :: Selects(clauses, g, year, v)
  }

  ghost predicate DropsValue(clauses: seq<Clause>, g: Granularity, from: int, to: int) {
    exists v :: Selects(clauses, g, from, v) && !Selects(clauses, g, to, v)
  }

  /** The selected set shrinks after the last valid year without vanishing. */
  lemma TopEdgeMeaning(clauses: seq<Clause>, g: Granularity)
    requires AllValid(clauses)
    ensures TopEdge(clauses, g) <==>
            SelectsSome(clauses, g, MAX_YEAR + 1) && DropsValue(clauses, g, MAX_YEAR, MAX_YEAR + 1)
  {
    var beyond := MAX_YEAR + 1;
    forall v { SelectsAboveTop(clauses, g, beyond, v); }
    forall v { SelectsAtTop(clauses, g, v); }
    if i :| OpenTopped(clauses, g, i) {
      assert ValidClause(clauses[i]);
      assert clauses[i].values[0] in clauses[i].values;
      assert Selects(clauses, g, MAX_YEAR + 1, clauses[i].values[0]);
    }
    if TopEdge(clauses, g) {
      var k, v :| EndsAtTop(clauses, g, k) && v in clauses[k].values
                  && forall i :: OpenTopped(clauses, g, i) ==> v !in clauses[i].values;
      assert Selects(clauses, g, MAX_YEAR, v) && !Selects(clauses, g, MAX_YEAR + 1, v);
    }
  }

  lemma BottomEdgeMeaning(clauses: seq<Clause>, g: Granularity)
    requires AllValid(clauses)
    ensures BottomEdge(clauses, g) <==>
            SelectsSome(clauses, g, MIN_YEAR - 1) && DropsValue(clauses, g, MIN_YEAR, MIN_YEAR - 1)
  {
    var beyond := MIN_YEAR - 1;
    forall v { SelectsBelowBottom(clauses, g, beyond, v); }
    forall v { SelectsAtBottom(clauses, g, v); }
    if i :| OpenBottomed(clauses, g, i) {
      assert ValidClause(clauses[i]);
      assert clauses[i].values[0] in clauses[i].values;
      assert Selects(clauses, g, MIN_YEAR - 1, clauses[i].values[0]);
    }
    if BottomEdge(clauses, g) {
      var k, v :| StartsAtBottom(clauses, g, k) && v in clauses[k].values
                  && forall i :: OpenBottomed(clauses, g, i) ==> v !in clauses[i].values;
      assert Selects(clauses, g, MIN_YEAR, v) && !Selects(clauses, g, MIN_YEAR - 1, v);
    }
  }

  /** Away from the edges of the valid range, nothing changes between two years. */
  lemma SelectsConstantOutside(clauses: seq<Clause>, g: Granularity, year: int, v: int)
    requires AllValid(clauses) && (year < MIN_YEAR - 1 || MAX_YEAR < year)
    ensures Selects(clauses, g, year, v) <==> Selects(clauses, g, year + 1, v)
  {
    if year < MIN_YEAR - 1 {
      SelectsBelowBottom(clauses, g, year, v);
      SelectsBelowBottom(clauses, g, year + 1, v);
    } else {
      SelectsAboveTop(clauses, g, year, v);
      SelectsAboveTop(clauses, g, year + 1, v);
    }
  }

  ghost predicate RunsSelect(runs: seq<Run<seq<int>>>, clauses: seq<Clause>, g: Granularity) {
    forall year, v :: InTag(LabelAt(runs, year), v) <==> Selects(clauses, g, year, v)
  }

  ghost predicate SameTriples(clauses: seq<Clause>, g: Granularity, a: int, b: int) {
    forall v :: Selects(clauses, g, a, v) <==> Selects(clauses, g, b, v)
  }

  /** Two years carry one tag exactly when the same values are selected in both. */
  lemma SameTagIffSameTriples(runs: seq<Run<seq<int>>>, clauses: seq<Clause>, g: Granularity, a: int, b: int)
    requires CanonicalRuns(runs) && CanonicalTags(runs) && RunsSelect(runs, clauses, g)
    ensures LabelAt(runs, a) == LabelAt(runs, b) <==> SameTriples(clauses, g, a, b)
  {
    var s, t := LabelAt(runs, a), LabelAt(runs, b);
    assert forall v :: InTag(s, v) <==> Selects(clauses, g, a, v);
    assert forall v :: InTag(t, v) <==> Selects(clauses, g, b, v);
    if SameTriples(clauses, g, a, b) {
      if s.Some? { TagsAscend(runs, a); assert InTag(s, s.value[0]); assert InTag(t, s.value[0]); }
      if t.Some? { TagsAscend(runs, b); assert InTag(t, t.value[0]); assert InTag(s, t.value[0]); }
      if s.Some? {
        forall v ensures v in s.value <==> v in t.value {
          assert InTag(s, v) <==> InTag(t, v);
        }
        AscendingUnique(s.value, t.value);
      }
    } else {
      var v :| Selects(clauses, g, a, v) != Selects(clauses, g, b, v);
      assert InTag(s, v) != InTag(t, v);
    }
  }

  /** A run begins where the label changes. */
  lemma RunStartsAtChange<T>(rs: seq<Run<T>>, i: nat)
    requires CanonicalRuns(rs) && i < |rs| && rs[i].span.lo.Some?
    ensures LabelAt(rs, rs[i].span.lo.value) == Some(rs[i].tag)
    ensures LabelAt(rs, rs[i].span.lo.value - 1) != Some(rs[i].tag)
  {
    var x := rs[i].span.lo.value;
    LabelOfCovering(rs, i, x);
    if LabelAt(rs, x - 1) == Some(rs[i].tag) {
      LabelHasCovering(rs, x - 1);
      var k :| 0 <= k < |rs| && Covers(rs[k].span, x - 1) && LabelAt(rs, x - 1) == Some(rs[k].tag);
      if k < i {
        assert Follows(rs[k], rs[k + 1]);
        EndsIncrease(rs, k, i);
        if k + 1 < i {
          EndsIncrease(rs, k + 1, i);
        }
      } else if i < k {
        EndsIncrease(rs, i, k);
      }
    }
  }

  /** A run ends where the label changes. */
  lemma RunEndsAtChange<T>(rs: seq<Run<T>>, i: nat)
    requires CanonicalRuns(rs) && i < |rs| && rs[i].span.hi.Some?
    ensures LabelAt(rs, rs[i].span.hi.value) == Some(rs[i].tag)
    ensures LabelAt(rs, rs[i].span.hi.value + 1) != Some(rs[i].tag)
  {
    var x := rs[i].span.hi.value;
    LabelOfCovering(rs, i, x);
    if LabelAt(rs, x + 1) == Some(rs[i].tag) {
      LabelHasCovering(rs, x + 1);
      var k :| 0 <= k < |rs| && Covers(rs[k].span, x + 1) && LabelAt(rs, x + 1) == Some(rs[k].tag);
      if i < k {
        assert Follows(rs[i], rs[i + 1]);
        EndsIncrease(rs, i, k);
        if i + 1 < k {
          EndsIncrease(rs, i + 1, k);
        }
      } else if k < i {
        EndsIncrease(rs, k, i);
      }
    }
  }

  /** Where the label changes to `tag`, a run with that tag begins. */
  lemma ChangeStartsRun<T>(rs: seq<Run<T>>, x: int)
    requires CanonicalRuns(rs) && LabelAt(rs, x).Some? && LabelAt(rs, x - 1) != LabelAt(rs, x)
    ensures exists i :: 0 <= i < |rs| && rs[i].span.lo == Some(x)
  {
    LabelHasCovering(rs, x);
    var i :| 0 <= i < |rs| && Covers(rs[i].span, x) && LabelAt(rs, x) == Some(rs[i].tag);
    if Covers(rs[i].span, x - 1) {
      LabelOfCovering(rs, i, x - 1);
    }
  }

  lemma ChangeEndsRun<T>(rs: seq<Run<T>>, x: int)
    requires CanonicalRuns(rs) && LabelAt(rs, x).Some? && LabelAt(rs, x + 1) != LabelAt(rs, x)
    ensures exists i :: 0 <= i < |rs| && rs[i].span.hi == Some(x)
  {
    LabelHasCovering(rs, x);
    var i :| 0 <= i < |rs| && Covers(rs[i].span, x) && LabelAt(rs, x) == Some(rs[i].tag);
    if Covers(rs[i].span, x + 1) {
      LabelOfCovering(rs, i, x + 1);
    }
  }

  ghost predicate AllYearsValid(runs: seq<Run<seq<int>>>) {
    forall i :: 0 <= i < |runs| ==> ValidYears(runs[i].span)
  }

  /** Two neighbouring years beyond the valid ones select the same values. */
  lemma OutsideSelectsAlike(clauses: seq<Clause>, g: Granularity, year: int)
    requires AllValid(clauses) && (year < MIN_YEAR - 1 || MAX_YEAR < year)
    ensures SameTriples(clauses, g, year, year + 1)
  {
    forall v ensures Selects(clauses, g, year, v) <==> Selects(clauses, g, year + 1, v) {
      SelectsConstantOutside(clauses, g, year, v);
    }
  }

  lemma InvalidStartIsTopEdge(runs: seq<Run<seq<int>>>, clauses: seq<Clause>, g: Granularity, i: nat)
    requires AllValid(clauses)
    requires CanonicalRuns(runs) && CanonicalTags(runs) && RunsSelect(runs, clauses, g)
    requires i < |runs| && runs[i].span.lo.Some? && !IsValidYear(runs[i].span.lo.value)
    ensures TopEdge(clauses, g)
  {
    var x := runs[i].span.lo.value;
    RunStartsAtChange(runs, i);
    TagsAscend(runs, x);
    SameTagIffSameTriples(runs, clauses, g, x - 1, x);
    if x != MAX_YEAR + 1 {
      OutsideSelectsAlike(clauses, g, x - 1);
      assert false;
    }
    assert InTag(LabelAt(runs, x), runs[i].tag[0]);
    assert Selects(clauses, g, x, runs[i].tag[0]);
    ChangeAtTop(clauses, g);
  }

  lemma ChangeAtTop(clauses: seq<Clause>, g: Granularity)
    requires AllValid(clauses) && !SameTriples(clauses, g, MAX_YEAR, MAX_YEAR + 1)
    requires SelectsSome(clauses, g, MAX_YEAR + 1)
    ensures TopEdge(clauses, g)
  {
    var v :| Selects(clauses, g, MAX_YEAR, v) != Selects(clauses, g, MAX_YEAR + 1, v);
    SelectsAtTop(clauses, g, v);
    TopEdgeMeaning(clauses, g);
  }

  lemma InvalidEndIsBottomEdge(runs: seq<Run<seq<int>>>, clauses: seq<Clause>, g: Granularity, i: nat)
    requires AllValid(clauses)
    requires CanonicalRuns(runs) && CanonicalTags(runs) && RunsSelect(runs, clauses, g)
    requires i < |runs| && runs[i].span.hi.Some? && !IsValidYear(runs[i].span.hi.value)
    ensures BottomEdge(clauses, g)
  {
    var x := runs[i].span.hi.value;
    RunEndsAtChange(runs, i);
    TagsAscend(runs, x);
    SameTagIffSameTriples(runs, clauses, g, x, x + 1);
    if x < MIN_YEAR - 1 || MAX_YEAR < x {
      forall v ensures Selects(clauses, g, x, v) <==> Selects(clauses, g, x + 1, v) {
        SelectsConstantOutside(clauses, g, x, v);
      }
      assert false;
    }
    assert InTag(LabelAt(runs, x), runs[i].tag[0]);
    var v :| Selects(clauses, g, x, v) != Selects(clauses, g, x + 1, v);
    SelectsAtBottom(clauses, g, v);
    BottomEdgeMeaning(clauses, g);
  }

  lemma EdgeNeedsInvalidYear(runs: seq<Run<seq<int>>>, clauses: seq<Clause>, g: Granularity)
    requires AllValid(clauses)
    requires CanonicalRuns(runs) && CanonicalTags(runs) && RunsSelect(runs, clauses, g)
    requires TopEdge(clauses, g) || BottomEdge(clauses, g)
    ensures !AllYearsValid(runs)
  {
    if TopEdge(clauses, g) {
      TopEdgeMeaning(clauses, g);
      SameTagIffSameTriples(runs, clauses, g, MAX_YEAR, MAX_YEAR + 1);
      var v :| Selects(clauses, g, MAX_YEAR + 1, v);
      assert InTag(LabelAt(runs, MAX_YEAR + 1), v);
      ChangeStartsRun(runs, MAX_YEAR + 1);
    } else {
      BottomEdgeMeaning(clauses, g);
      SameTagIffSameTriples(runs, clauses, g, MIN_YEAR - 1, MIN_YEAR);
      var v :| Selects(clauses, g, MIN_YEAR - 1, v);
      assert InTag(LabelAt(runs, MIN_YEAR - 1), v);
      ChangeEndsRun(runs, MIN_YEAR - 1);
    }
  }

  /** The runs of one granularity can all be built exactly when it has no edge. */
  lemma RunsBuildableIffNoEdge(runs: seq<Run<seq<int>>>, clauses: seq<Clause>, g: Granularity)
    requires AllValid(clauses)
    requires CanonicalRuns(runs) && CanonicalTags(runs) && RunsSelect(runs, clauses, g)
    ensures AllYearsValid(runs) <==> !(TopEdge(clauses, g) || BottomEdge(clauses, g))
  {
    if TopEdge(clauses, g) || BottomEdge(clauses, g) {
      EdgeNeedsInvalidYear(runs, clauses, g);
    } else {
      forall i | 0 <= i < |runs| ensures ValidYears(runs[i].span) {
        if runs[i].span.lo.Some? && !IsValidYear(runs[i].span.lo.value) {
          InvalidStartIsTopEdge(runs, clauses, g, i);
        }
        if runs[i].span.hi.Some? && !IsValidYear(runs[i].span.hi.value) {
          InvalidEndIsBottomEdge(runs, clauses, g, i);
        }
      }
    }
  }
}
