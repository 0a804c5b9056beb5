/** What comes back when the text of a canonical selection is parsed: exactly when it
    is refused, exactly which dates it matches, and the inputs where it differs
    (edgar_sec/domain/filing_catalog/filters.py:570-593, 663-685). */
module DateReparse {
  import opened Common
  import opened Intervals
  import opened YearSegments
  import opened Calendar
  import opened DateSelection
  import opened DateGrammar
  import opened DateRoundTrip
  import opened DateTheorems

  // ------------------------------------------------------- values printed bare

  /** `v` stands before the last value of the clause, where the printer gives it no
      year span. */
  predicate BareIn(c: Clause, g: Granularity, v: int) {
    c.Recurring? && c.granularity == g && |c.values| > 1 && v in c.values[..|c.values| - 1]
  }

  ghost predicate PrintedBare(selection: Selection, g: Granularity, v: int) {
    exists i :: 0 <= i < |selection| && BareIn(selection[i], g, v)
  }

  /** The last value of the recurring clause `i` is printed bare by no clause. */
  ghost predicate LastNeverBare(selection: Selection, g: Granularity, i: int)
    requires 0 <= i < |selection| && selection[i].Recurring? && selection[i].values != []
  {
    !PrintedBare(selection, g, selection[i].values[|selection[i].values| - 1])
  }

  /** Some value of the granularity is printed bare, while a clause that stops at the
      last valid year ends in a value that never is. */
  ghost predicate PrintedTopEdge(selection: Selection, g: Granularity) {
    && (exists v :: PrintedBare(selection, g, v))
    && (exists i :: EndsAtTop(selection, g, i) && selection[i].values != [] && LastNeverBare(selection, g, i))
  }

  /** The same at the first valid year. */
  ghost predicate PrintedBottomEdge(selection: Selection, g: Granularity) {
    && (exists v :: PrintedBare(selection, g, v))
    && (exists i :: StartsAtBottom(selection, g, i) && selection[i].values != [] && LastNeverBare(selection, g, i))
  }

  ghost predicate PrintedYearEdge(selection: Selection) {
    exists g :: PrintedTopEdge(selection, g) || PrintedBottomEdge(selection, g)
  }

  /** `parse_date_selection` raises; see the contract of ParseDateSelection. */
  ghost predicate Refused(text: string) {
    ParseClauses(text).Failure? || YearEdge(ParseClauses(text).value)
  }

  // ------------------------------------------------- one clause for each year

  lemma RunsDisjoint<T>(rs: seq<Run<T>>, i: nat, j: nat, year: int)
    requires CanonicalRuns(rs) && i < |rs| && j < |rs|
    requires Covers(rs[i].span, year) && Covers(rs[j].span, year)
    ensures i == j
  {
    if i < j { EndsIncrease(rs, i, j); }
    if j < i { EndsIncrease(rs, j, i); }
  }

  lemma OneRunPerYear(p: Parts, g: Granularity, i: nat, j: nat, year: int)
    requires CanonicalRuns(p.Runs(g)) && i < |Assemble(p)| && j < |Assemble(p)|
    requires Assemble(p)[i].Recurring? && Assemble(p)[i].granularity == g && Covers(Assemble(p)[i].years, year)
    requires Assemble(p)[j].Recurring? && Assemble(p)[j].granularity == g && Covers(Assemble(p)[j].years, year)
    ensures i == j
  {
    RunOfClause(p, g, i);
    RunOfClause(p, g, j);
    RunsDisjoint(p.Runs(g), i - RunsStart(p, g), j - RunsStart(p, g), year);
  }

  /** No two clauses of one granularity share a year in a canonical selection. */
  lemma OneClausePerYear(selection: Selection, g: Granularity, i: nat, j: nat, year: int)
    requires CanonicalSelection(selection) && i < |selection| && j < |selection|
    requires selection[i].Recurring? && selection[i].granularity == g && Covers(selection[i].years, year)
    requires selection[j].Recurring? && selection[j].granularity == g && Covers(selection[j].years, year)
    ensures i == j
  {
    var p :| CanonicalParts(p) && selection == Assemble(p);
    CanonicalRunsOf(p, g);
    OneRunPerYear(p, g, i, j, year);
  }

  /** Beside a clause that stops at the last valid year no clause is open. */
  lemma NoOpenTopBeside(selection: Selection, g: Granularity, i: nat, m: nat)
    requires CanonicalSelection(selection) && EndsAtTop(selection, g, i)
    ensures !OpenTopped(selection, g, m)
  {
    if m < |selection| && selection[m].Recurring? && Covers(selection[m].years, MAX_YEAR)
        && selection[m].granularity == g {
      assert ValidClause(selection[i]);
      OneClausePerYear(selection, g, i, m, MAX_YEAR);
    } else if m < |selection| {
      assert ValidClause(selection[m]);
    }
  }

  lemma NoOpenBottomBeside(selection: Selection, g: Granularity, i: nat, m: nat)
    requires CanonicalSelection(selection) && StartsAtBottom(selection, g, i)
    ensures !OpenBottomed(selection, g, m)
  {
    if m < |selection| && selection[m].Recurring? && Covers(selection[m].years, MIN_YEAR)
        && selection[m].granularity == g {
      assert ValidClause(selection[i]);
      OneClausePerYear(selection, g, i, m, MIN_YEAR);
    } else if m < |selection| {
      assert ValidClause(selection[m]);
    }
  }

  // -------------------------------------------------------------- reread clauses

  /** A reread clause is one value, bare or the last of its clause with the span. */
  lemma RereadShape(selection: Selection, n: nat) returns (i: nat)
    requires n < |RereadAll(selection)| && RereadAll(selection)[n].Recurring?
    ensures i < |selection| && selection[i].Recurring? && selection[i].values != []
    ensures var c, r := selection[i], RereadAll(selection)[n];
            && r.granularity == c.granularity && |r.values| == 1
            && ((r.years == Interval(None, None) && BareIn(c, c.granularity, r.values[0]))
                || (r.years == c.years && r.values[0] == c.values[|c.values| - 1]))
  {
    var k;
    i, k := RereadOrigin(selection, n);
    var c := selection[i];
    if k + 1 < |c.values| {
      assert c.values[..|c.values| - 1][k] == c.values[k];
    }
  }

  /** A value printed bare is reread for every year. */
  lemma BareIsOpen(selection: Selection, g: Granularity, v: int) returns (n: nat)
    requires PrintedBare(selection, g, v)
    ensures n < |RereadAll(selection)| && RereadAll(selection)[n] == Recurring(g, [v], Interval(None, None))
  {
    var i :| 0 <= i < |selection| && BareIn(selection[i], g, v);
    var c := selection[i];
    var k :| 0 <= k < |c.values| - 1 && c.values[..|c.values| - 1][k] == v;
    RereadHas(selection, i, k);
    n :| 0 <= n < |RereadAll(selection)| && RereadAll(selection)[n] == Reread(selection[i])[k];
  }

  /** The last value of a clause is reread with its span. */
  lemma LastKeepsSpan(selection: Selection, i: nat) returns (n: nat)
    requires i < |selection| && selection[i].Recurring? && selection[i].values != []
    ensures var c := selection[i];
            && n < |RereadAll(selection)|
            && RereadAll(selection)[n] == Recurring(c.granularity, [c.values[|c.values| - 1]], c.years)
  {
    var k := |selection[i].values| - 1;
    RereadHas(selection, i, k);
    n :| 0 <= n < |RereadAll(selection)| && RereadAll(selection)[n] == Reread(selection[i])[k];
  }

  /** An open reread clause holds a value printed bare. */
  lemma OpenTopHoldsBare(selection: Selection, g: Granularity, i: nat, m: nat, v: int)
    requires CanonicalSelection(selection) && EndsAtTop(selection, g, i)
    requires OpenTopped(RereadAll(selection), g, m) && !PrintedBare(selection, g, v)
    ensures v !in RereadAll(selection)[m].values
  {
    var r := RereadAll(selection)[m];
    var j := RereadShape(selection, m);
    NoOpenTopBeside(selection, g, i, j);
    assert PrintedBare(selection, g, r.values[0]);
  }

  lemma PrintedTopMakesTop(selection: Selection, g: Granularity)
    requires CanonicalSelection(selection) && PrintedTopEdge(selection, g)
    ensures TopEdge(RereadAll(selection), g)
  {
    var cs := RereadAll(selection);
    var bare :| PrintedBare(selection, g, bare);
    var open := BareIsOpen(selection, g, bare);
    assert OpenTopped(cs, g, open);
    var i: int :| EndsAtTop(selection, g, i) && selection[i].values != [] && LastNeverBare(selection, g, i);
    var v := selection[i].values[|selection[i].values| - 1];
    var n := LastKeepsSpan(selection, i);
    assert EndsAtTop(cs, g, n) && v in cs[n].values;
    forall m | OpenTopped(cs, g, m) ensures v !in cs[m].values {
      OpenTopHoldsBare(selection, g, i, m, v);
    }
  }

  lemma TopMakesPrintedTop(selection: Selection, g: Granularity)
    requires CanonicalSelection(selection) && TopEdge(RereadAll(selection), g)
    ensures PrintedTopEdge(selection, g)
  {
    var cs := RereadAll(selection);
    var open :| OpenTopped(cs, g, open);
    var n, v :| EndsAtTop(cs, g, n) && v in cs[n].values && forall m :: OpenTopped(cs, g, m) ==> v !in cs[m].values;
    var i := RereadShape(selection, n);
    assert EndsAtTop(selection, g, i) && v == selection[i].values[|selection[i].values| - 1];
    if PrintedBare(selection, g, v) {
      var m := BareIsOpen(selection, g, v);
      assert OpenTopped(cs, g, m);
    }
    var j := RereadShape(selection, open);
    NoOpenTopBeside(selection, g, i, j);
    assert PrintedBare(selection, g, cs[open].values[0]);
    assert LastNeverBare(selection, g, i);
  }

  /** An open reread clause holds a value printed bare. */
  lemma OpenBottomHoldsBare(selection: Selection, g: Granularity, i: nat, m: nat, v: int)
    requires CanonicalSelection(selection) && StartsAtBottom(selection, g, i)
    requires OpenBottomed(RereadAll(selection), g, m) && !PrintedBare(selection, g, v)
    ensures v !in RereadAll(selection)[m].values
  {
    var r := RereadAll(selection)[m];
    var j := RereadShape(selection, m);
    NoOpenBottomBeside(selection, g, i, j);
    assert PrintedBare(selection, g, r.values[0]);
  }

  lemma PrintedBottomMakesBottom(selection: Selection, g: Granularity)
    requires CanonicalSelection(selection) && PrintedBottomEdge(selection, g)
    ensures BottomEdge(RereadAll(selection), g)
  {
    var cs := RereadAll(selection);
    var bare :| PrintedBare(selection, g, bare);
    var open := BareIsOpen(selection, g, bare);
    assert OpenBottomed(cs, g, open);
    var i: int :| StartsAtBottom(selection, g, i) && selection[i].values != [] && LastNeverBare(selection, g, i);
    var v := selection[i].values[|selection[i].values| - 1];
    var n := LastKeepsSpan(selection, i);
    assert StartsAtBottom(cs, g, n) && v in cs[n].values;
    forall m | OpenBottomed(cs, g, m) ensures v !in cs[m].values {
      OpenBottomHoldsBare(selection, g, i, m, v);
    }
  }

  lemma BottomMakesPrintedBottom(selection: Selection, g: Granularity)
    requires CanonicalSelection(selection) && BottomEdge(RereadAll(selection), g)
    ensures PrintedBottomEdge(selection, g)
  {
    var cs := RereadAll(selection);
    var open :| OpenBottomed(cs, g, open);
    var n, v :| StartsAtBottom(cs, g, n) && v in cs[n].values && forall m :: OpenBottomed(cs, g, m) ==>
        v !in cs[m].values;
    var i := RereadShape(selection, n);
    assert StartsAtBottom(selection, g, i) && v == selection[i].values[|selection[i].values| - 1];
    if PrintedBare(selection, g, v) {
      var m := BareIsOpen(selection, g, v);
      assert OpenBottomed(cs, g, m);
    }
    var j := RereadShape(selection, open);
    NoOpenBottomBeside(selection, g, i, j);
    assert PrintedBare(selection, g, cs[open].values[0]);
    assert LastNeverBare(selection, g, i);
  }

  /** The reread clauses have no canonical form exactly at a printed year edge. */
  lemma RereadEdgeIff(selection: Selection)
    requires CanonicalSelection(selection)
    ensures YearEdge(RereadAll(selection)) <==> PrintedYearEdge(selection)
  {
    forall g ensures TopEdge(RereadAll(selection), g) <==> PrintedTopEdge(selection, g) {
      if TopEdge(RereadAll(selection), g) { TopMakesPrintedTop(selection, g); }
      if PrintedTopEdge(selection, g) { PrintedTopMakesTop(selection, g); }
    }
    forall g ensures BottomEdge(RereadAll(selection), g) <==> PrintedBottomEdge(selection, g) {
      if BottomEdge(RereadAll(selection), g) { BottomMakesPrintedBottom(selection, g); }
      if PrintedBottomEdge(selection, g) { PrintedBottomMakesBottom(selection, g); }
    }
  }

  /** The text of a canonical selection is refused exactly when an absolute end lies
      outside the grammar's years or the selection has a printed year edge. */
  lemma PrintedTextRefusedIff(selection: Selection)
    requires CanonicalSelection(selection)
    ensures Refused(FormattedSelection(selection)) <==> !AllPrintable(selection) || PrintedYearEdge(selection)
  {
    CanonicalNoFullInterval(selection);
    ParsePrintedSelection(selection);
    RereadEdgeIff(selection);
  }

  // ------------------------------------------------------ which dates come back

  lemma RereadSelectsIff(selection: Selection, g: Granularity, year: int, v: int)
    ensures Selects(RereadAll(selection), g, year, v) <==>
              Selects(selection, g, year, v) || PrintedBare(selection, g, v)
  {
    var cs := RereadAll(selection);
    if Selects(cs, g, year, v) {
      var n :| 0 <= n < |cs| && ClauseSelects(cs[n], g, year, v);
      var i := RereadShape(selection, n);
      if !BareIn(selection[i], g, v) {
        assert ClauseSelects(selection[i], g, year, v);
      }
    }
    if Selects(selection, g, year, v) {
      RereadSelectsMore(selection, g, year, v);
    }
    if PrintedBare(selection, g, v) {
      var n := BareIsOpen(selection, g, v);
      assert ClauseSelects(cs[n], g, year, v);
    }
  }

  /** A period of the date is printed bare. */
  ghost predicate WidenedTo(selection: Selection, d: Date) {
    exists g :: PrintedBare(selection, g, PeriodOf(g, d))
  }

  /** Reparsing leaves nothing exactly where there was nothing. */
  lemma ReparsedEmpty(selection: Selection, reparsed: Selection)
    requires CanonicalSelection(selection) && IsNormalForm(RereadAll(selection), reparsed)
    ensures reparsed == [] <==> selection == []
  {
    RereadValid(selection);
    NormalFormEmpty(RereadAll(selection), reparsed);
    RereadKeepsDays(selection);
    if selection != [] {
      RereadHas(selection, 0, 0) by {
        assert ValidClause(selection[0]);
      }
      if CoversEveryDay(RereadAll(selection)) {
        ClauseDenotesKept(selection);
      }
    } else {
      assert RereadAll(selection) == [];
    }
  }

  lemma ClauseDenotesKept(selection: Selection)
    requires CanonicalSelection(selection)
    ensures !CoversEveryDay(RereadAll(selection))
  {
    CanonicalLeavesADay(selection);
    var day :| !AbsoluteCovers(selection, day);
    RereadCovers(selection, day);
  }

  /** Exactly the dates the selection matches come back, and those in a period the
      printer left without its years. */
  lemma ReparsedMatchesExactly(selection: Selection, reparsed: Selection, d: Date)
    requires CanonicalSelection(selection) && ValidDate(d)
    requires ParsesTo(FormattedSelection(selection), reparsed)
    ensures SelectionMatches(reparsed, Some(d)) <==> SelectionMatches(selection, Some(d)) || WidenedTo(selection, d)
  {
    CanonicalNoFullInterval(selection);
    ParsePrintedSelection(selection);
    ReparsedEmpty(selection, reparsed);
    if selection != [] {
      RereadKeepsDays(selection);
      MatchesByDenotation(selection, d);
      MatchesByDenotation(reparsed, d);
      assert AbsoluteCovers(reparsed, Ordinal(d)) <==> KeepsDay(RereadAll(selection), Ordinal(d));
      forall g ensures Selects(reparsed, g, d.year, PeriodOf(g, d))
                  <==> Selects(selection, g, d.year, PeriodOf(g, d)) || PrintedBare(selection, g, PeriodOf(g, d)) {
        RereadSelectsIff(selection, g, d.year, PeriodOf(g, d));
      }
    }
  }

  /** For every canonical selection its text is refused, exactly under the condition
      on the selection, or whatever it parses to matches at least the same dates. */
  lemma ReparsedMatchesMore(selection: Selection, d: Date)
    requires CanonicalSelection(selection) && ValidDate(d)
    ensures Refused(FormattedSelection(selection)) <==> !AllPrintable(selection) || PrintedYearEdge(selection)
    ensures SelectionMatches(selection, Some(d)) ==>
              forall reparsed :: ParsesTo(FormattedSelection(selection), reparsed) ==>
                  SelectionMatches(reparsed, Some(d))
  {
    PrintedTextRefusedIff(selection);
    forall reparsed | ParsesTo(FormattedSelection(selection), reparsed)
      ensures SelectionMatches(selection, Some(d)) ==> SelectionMatches(reparsed, Some(d))
    {
      ReparsedMatchesExactly(selection, reparsed, d);
    }
  }

  /** Printing a canonical selection and parsing the text: when it raises, when it gives
      the selection back, and which dates the result matches. */
  method PrintAndParse(selection: Selection) returns (r: Result<Selection>)
    requires CanonicalSelection(selection)
    ensures r.Failure? <==> !AllPrintable(selection) || PrintedYearEdge(selection)
    ensures r == Success(selection) <==> AllPrintable(selection) && WidensNothing(selection)
    ensures forall d | r.Success? && ValidDate(d) ::
              SelectionMatches(r.value, Some(d)) <==> SelectionMatches(selection, Some(d)) || WidenedTo(selection, d)
  {
    var text := FormatDateSelection(selection);
    r := ParseDateSelection(text);
    PrintedTextRefusedIff(selection);
    RoundTripExact(selection);
    if r.Success? {
      if ParsesTo(text, selection) {
        var clauses := ParseClauses(text).value;
        NormalFormsEqualIffEquivalent(clauses, r.value, clauses, selection);
      }
      forall d | ValidDate(d)
        ensures SelectionMatches(r.value, Some(d)) <==> SelectionMatches(selection, Some(d)) || WidenedTo(selection, d)
      {
        ReparsedMatchesExactly(selection, r.value, d);
      }
    }
  }

  // ------------------------------------------------------------------- instances

  function TwoQuarters(years: Interval): Selection {
    [Recurring(Quarter, [1, 2], years)]
  }

  lemma TwoQuartersCanonical(years: Interval)
    requires ValidYears(years) && Ordered(years)
    ensures CanonicalSelection(TwoQuarters(years)) && AllPrintable(TwoQuarters(years))
  {
    var runs := [Run(years, [1, 2])];
    assert AsRecurring(Quarter, runs) == TwoQuarters(years);
    QuartersCanonical(TwoQuarters(years), runs);
  }

  lemma TwoQuartersReread(years: Interval)
    ensures RereadAll(TwoQuarters(years))
         == [Recurring(Quarter, [1], Interval(None, None)), Recurring(Quarter, [2], years)]
  {
    var s := TwoQuarters(years);
    assert PrintedYears(years, 0, 2) == Interval(None, None) && PrintedYears(years, 1, 2) == years;
    assert Reread(s[0]) == [Recurring(Quarter, [1], Interval(None, None)), Recurring(Quarter, [2], years)];
    assert RereadGroups(s) == [Reread(s[0])];
    assert RereadGroups(s)[1..] == [];
    assert Flatten(RereadGroups(s)) == Reread(s[0]) + [];
  }

  /** Both quarters of 1900..2015 are canonical; their text `@Q1,@Q2[1900..2015]` is
      refused. */
  lemma FirstYearTextRefused()
    ensures var s := TwoQuarters(Interval(Some(MIN_YEAR), Some(2015)));
            && CanonicalSelection(s) && AllPrintable(s) && Refused(FormattedSelection(s))
  {
    var s := TwoQuarters(Interval(Some(MIN_YEAR), Some(2015)));
    TwoQuartersCanonical(Interval(Some(MIN_YEAR), Some(2015)));
    assert s[0].values[..1] == [1];
    assert BareIn(s[0], Quarter, 1);
    assert PrintedBare(s, Quarter, 1);
    assert StartsAtBottom(s, Quarter, 0) && LastNeverBare(s, Quarter, 0);
    assert PrintedBottomEdge(s, Quarter);
    PrintedTextRefusedIff(s);
  }

  /** What both quarters of 2011..2015 come back as: the first quarter of every year,
      and the second of those five. */
  function Widened(): Selection {
    [Recurring(Quarter, [1], Interval(None, Some(2010))), Recurring(Quarter, [1, 2], Interval(Some(2011), Some(2015))),
     Recurring(Quarter, [1], Interval(Some(2016), None))]
  }

  function WidenedRuns(): seq<Run<seq<int>>> {
    [Run(Interval(None, Some(2010)), [1]), Run(Interval(Some(2011), Some(2015)), [1, 2]),
     Run(Interval(Some(2016), None), [1])]
  }

  lemma WidenedRunsCanonical()
    ensures CanonicalRuns(WidenedRuns()) && CanonicalTags(WidenedRuns())
  {
    var runs := WidenedRuns();
    assert runs[0].tag != runs[1].tag && runs[1].tag != runs[2].tag by {
      assert |runs[0].tag| != |runs[1].tag| && |runs[2].tag| != |runs[1].tag|;
    }
    assert Follows(runs[0], runs[1]) && Follows(runs[1], runs[2]);
  }

  /** A selection of quarter runs alone. */
  lemma QuartersCanonical(selection: Selection, runs: seq<Run<seq<int>>>)
    requires CanonicalRuns(runs) && CanonicalTags(runs) && selection == AsRecurring(Quarter, runs)
    requires AllValid(selection)
    ensures CanonicalSelection(selection)
  {
    var p := Parts([], [], runs);
    assert p.Runs(Month) == [] && p.Runs(Quarter) == runs;
    assert AsAbsolute(p.absolute) == [] && AsRecurring(Month, p.months) == [];
    assert CanonicalParts(p) && selection == Assemble(p);
  }

  /** A selection of one absolute interval that is bounded somewhere. */
  lemma AbsoluteCanonical(span: Interval)
    requires ValidClause(Absolute(span)) && span != Interval(None, None)
    ensures CanonicalSelection([Absolute(span)])
  {
    var p := Parts([span], [], []);
    assert p.Runs(Month) == [] && p.Runs(Quarter) == [] && CanonicalIntervals(p.absolute);
    assert AsAbsolute(p.absolute) == [Absolute(span)];
    assert CanonicalParts(p) && [Absolute(span)] == Assemble(p);
  }

  lemma WidenedValid()
    ensures AllValid(Widened())
  {
    assert ValidClause(Widened()[0]) && ValidClause(Widened()[1]) && ValidClause(Widened()[2]);
  }

  lemma WidenedIsRuns()
    ensures Widened() == AsRecurring(Quarter, WidenedRuns())
  {
    var built, w := AsRecurring(Quarter, WidenedRuns()), Widened();
    assert |built| == |w| == 3;
    assert built[0] == w[0] && built[1] == w[1] && built[2] == w[2];
  }

  lemma WidenedCanonical()
    ensures CanonicalSelection(Widened())
  {
    WidenedRunsCanonical();
    WidenedValid();
    WidenedIsRuns();
    QuartersCanonical(Widened(), WidenedRuns());
  }

  /** No edge: neither end of 2011..2015 is an end of the valid years. */
  lemma MiddleYearsNoEdge(s: Selection)
    requires s == TwoQuarters(Interval(Some(2011), Some(2015)))
    ensures !PrintedYearEdge(s)
  {
    assert forall g, i :: !EndsAtTop(s, g, i) && !StartsAtBottom(s, g, i);
  }

  lemma WidenedIsReread(g: Granularity, year: int, v: int)
    ensures Selects(Widened(), g, year, v) <==>
              Selects(RereadAll(TwoQuarters(Interval(Some(2011), Some(2015)))), g, year, v)
  {
    var years := Interval(Some(2011), Some(2015));
    TwoQuartersReread(years);
    WidenedSelects(g, year, v);
    var cs := RereadAll(TwoQuarters(years));
    assert ClauseSelects(cs[0], g, year, v) <==> g == Quarter && v == 1;
    assert ClauseSelects(cs[1], g, year, v) <==> g == Quarter && v == 2 && 2011 <= year <= 2015;
  }

  lemma WidenedNormalForm()
    ensures IsNormalForm(RereadAll(TwoQuarters(Interval(Some(2011), Some(2015)))), Widened())
  {
    var s := TwoQuarters(Interval(Some(2011), Some(2015)));
    TwoQuartersCanonical(s[0].years);
    WidenedCanonical();
    RereadKeepsDays(s);
    assert forall day :: !AbsoluteCovers(Widened(), day) && !AbsoluteCovers(s, day);
    forall g, year, v { WidenedIsReread(g, year, v); }
  }

  /** Both quarters of 2011..2015 print as `@Q1,@Q2[2011..2015]` and reparse as exactly
      that wider selection. */
  lemma PrinterWidens()
    ensures var s := TwoQuarters(Interval(Some(2011), Some(2015)));
            && CanonicalSelection(s) && ParsesTo(FormattedSelection(s), Widened())
            && SelectionMatches(Widened(), Some(Date(2024, 2, 1))) && !SelectionMatches(s, Some(Date(2024, 2, 1)))
  {
    var years := Interval(Some(2011), Some(2015));
    var s := TwoQuarters(years);
    TwoQuartersCanonical(years);
    CanonicalNoFullInterval(s);
    ParsePrintedSelection(s);
    RereadEdgeIff(s);
    MiddleYearsNoEdge(s);
    WidenedNormalForm();
    WidenedDate(s);
  }

  lemma WidenedDate(s: Selection)
    requires s == TwoQuarters(Interval(Some(2011), Some(2015)))
    ensures SelectionMatches(Widened(), Some(Date(2024, 2, 1))) && !SelectionMatches(s, Some(Date(2024, 2, 1)))
  {
    assert ClauseMatches(Widened()[2], Date(2024, 2, 1));
    assert !ClauseMatches(s[0], Date(2024, 2, 1));
  }

  lemma WidenedSelects(g: Granularity, year: int, v: int)
    ensures Selects(Widened(), g, year, v) <==> g == Quarter && (v == 1 || (v == 2 && 2011 <= year <= 2015))
  {
    var w := Widened();
    assert ClauseSelects(w[0], g, year, v) <==> g == Quarter && v == 1 && year <= 2010;
    assert ClauseSelects(w[1], g, year, v) <==> g == Quarter && (v == 1 || v == 2) && 2011 <= year <= 2015;
    assert ClauseSelects(w[2], g, year, v) <==> g == Quarter && v == 1 && 2016 <= year;
  }

  lemma EarlyDay()
    ensures 1 <= Ordinal(Date(1850, 1, 1)) <= MAX_ORDINAL
    ensures FromOrdinal(Ordinal(Date(1850, 1, 1))).year == 1850
  {
    OrdinalRange(Date(1850, 1, 1));
    FromOrdinalOfDate(Date(1850, 1, 1));
  }

  /** A day before the first valid year is printed and not read back. */
  lemma EarlyDayTextRefused()
    ensures var s := [Absolute(Interval(Some(Ordinal(Date(1850, 1, 1))), None))];
            && CanonicalSelection(s) && !AllPrintable(s) && Refused(FormattedSelection(s))
  {
    EarlyDay();
    var span := Interval(Some(Ordinal(Date(1850, 1, 1))), None);
    AbsoluteCanonical(span);
    assert !PrintableClause([Absolute(span)][0]);
    PrintedTextRefusedIff([Absolute(span)]);
  }

  function UntilLastDay(): Selection {
    [Absolute(Interval(None, Some(MAX_ORDINAL)))]
  }

  function EveryDay(): seq<Clause> {
    [Absolute(Interval(None, None))]
  }

  lemma UntilLastDayCanonical()
    ensures CanonicalSelection(UntilLastDay())
  {
    AbsoluteCanonical(Interval(None, Some(MAX_ORDINAL)));
  }

  lemma EveryDayKeepsNone(y: Selection)
    ensures IsNormalForm(EveryDay(), y) <==> y == []
  {
    var q := Parts([], [], []);
    assert q.Runs(Month) == [] && q.Runs(Quarter) == [] && CanonicalParts(q) && [] == Assemble(q);
    assert forall day :: Covers(EveryDay()[0].days, day);
    assert CanonicalSelection([]);
    assert IsNormalForm(EveryDay(), []);
    if IsNormalForm(EveryDay(), y) {
      NormalFormsEqualIffEquivalent(EveryDay(), y, EveryDay(), []);
    }
  }

  /** `..9999-12-31` and `..` cover the same representable days; the first stays as it
      is, the second normalises to nothing. */
  lemma LastDayIsNotOpenEnd(x: Selection, y: Selection)
    ensures forall day :: day <= MAX_ORDINAL ==> AbsoluteCovers(UntilLastDay(), day) && AbsoluteCovers(EveryDay(), day)
    ensures IsNormalForm(UntilLastDay(), x) <==> x == UntilLastDay()
    ensures IsNormalForm(EveryDay(), y) <==> y == []
  {
    UntilLastDayCanonical();
    NormalFormIdempotent(UntilLastDay(), x);
    EveryDayKeepsNone(y);
    forall day | day <= MAX_ORDINAL ensures AbsoluteCovers(UntilLastDay(), day) && AbsoluteCovers(EveryDay(), day) {
      assert Covers(UntilLastDay()[0].days, day) && Covers(EveryDay()[0].days, day);
    }
  }
}
