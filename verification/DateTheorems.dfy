/** Main results about date selections: the exact round-trip condition, what a
    reread text selects, calendar atoms, and where an obvious claim fails
    (edgar_sec/domain/filing_catalog/filters.py). */
module DateTheorems {
  import opened Common
  import opened Intervals
  import opened Calendar
  import opened Text
  import opened DateSelection
  import opened DateNormalisation
  import opened DateGrammar
  import opened DateRoundTrip

  /** `parse_date_selection(text)` returns `selection`; see
      ParseDateSelection, whose contract this restates for one result. */
  ghost predicate ParsesTo(text: string, selection: Selection) {
    var clauses := ParseClauses(text);
    clauses.Success? && !YearEdge(clauses.value) && IsNormalForm(clauses.value, selection)
  }

  /** The parser returns a given canonical selection exactly when `ParsesTo` says so. */
  method ParseReturns(text: string, selection: Selection) returns (same: bool)
    ensures same <==> ParsesTo(text, selection)
  {
    var r := ParseDateSelection(text);
    same := r.Success? && r.value == selection;
    if r.Success? && ParsesTo(text, selection) {
      NormalFormsEqualIffEquivalent(ParseClauses(text).value, r.value, ParseClauses(text).value, selection);
    }
  }

  /** Every value printed without its clause's year span is selected in every year
      anyway. */
  ghost predicate WidensNothing(selection: Selection) {
    forall i, k, year :: 0 <= i < |selection| && selection[i].Recurring? && 0 <= k && k + 1 < |selection[i].values| ==>
      Selects(selection, selection[i].granularity, year, selection[i].values[k])
  }

  /** A clause read back comes from one value of one printed clause. */
  lemma RereadOrigin(selection: Selection, n: nat) returns (i: nat, k: nat)
    requires n < |RereadAll(selection)|
    ensures i < |selection| && k < |Reread(selection[i])| && RereadAll(selection)[n] == Reread(selection[i])[k]
  {
    i, k := FlattenLocate(RereadGroups(selection), RereadGroups(selection), n);
  }

  lemma RereadHas(selection: Selection, i: nat, k: nat)
    requires i < |selection| && k < |Reread(selection[i])|
    ensures Reread(selection[i])[k] in RereadAll(selection)
  {
    FlattenHas(RereadGroups(selection), i, k);
  }

  lemma RereadValid(selection: Selection)
    requires AllValid(selection)
    ensures AllValid(RereadAll(selection))
  {
    forall n | 0 <= n < |RereadAll(selection)| ensures ValidClause(RereadAll(selection)[n]) {
      var i, k := RereadOrigin(selection, n);
      assert ValidClause(selection[i]);
    }
  }

  lemma RereadCovers(selection: Selection, day: int)
    ensures AbsoluteCovers(RereadAll(selection), day) <==> AbsoluteCovers(selection, day)
  {
    var cs := RereadAll(selection);
    if AbsoluteCovers(cs, day) {
      var n :| 0 <= n < |cs| && cs[n].Absolute? && Covers(cs[n].days, day);
      var i, k := RereadOrigin(selection, n);
      assert selection[i] == cs[n];
    }
    if AbsoluteCovers(selection, day) {
      var i :| 0 <= i < |selection| && selection[i].Absolute? && Covers(selection[i].days, day);
      RereadHas(selection, i, 0);
      var n :| 0 <= n < |cs| && cs[n] == selection[i];
    }
  }

  /** Rereading never loses a selected triple. */
  lemma RereadSelectsMore(selection: Selection, g: Granularity, year: int, v: int)
    requires Selects(selection, g, year, v)
    ensures Selects(RereadAll(selection), g, year, v)
  {
    var cs := RereadAll(selection);
    var i :| 0 <= i < |selection| && ClauseSelects(selection[i], g, year, v);
    var k :| 0 <= k < |selection[i].values| && selection[i].values[k] == v;
    RereadHas(selection, i, k);
    var n :| 0 <= n < |cs| && cs[n] == Reread(selection[i])[k];
    assert ClauseSelects(cs[n], g, year, v);
  }

  lemma RereadSelectsExactly(selection: Selection)
    ensures WidensNothing(selection) <==>
            forall g, year, v :: Selects(RereadAll(selection), g, year, v) ==> Selects(selection, g, year, v)
  {
    var cs := RereadAll(selection);
    if WidensNothing(selection) {
      forall g, year, v | Selects(cs, g, year, v) ensures Selects(selection, g, year, v) {
        var n :| 0 <= n < |cs| && ClauseSelects(cs[n], g, year, v);
        var i, k := RereadOrigin(selection, n);
        if k + 1 == |selection[i].values| {
          assert ClauseSelects(selection[i], g, year, v);
        }
      }
    }
    if forall g, year, v :: Selects(cs, g, year, v) ==> Selects(selection, g, year, v) {
      forall i, k, year | 0 <= i < |selection| && selection[i].Recurring? && 0 <= k && k + 1 < |selection[i].values|
        ensures Selects(selection, selection[i].granularity, year, selection[i].values[k])
      {
        RereadHas(selection, i, k);
        var n :| 0 <= n < |cs| && cs[n] == Reread(selection[i])[k];
        assert ClauseSelects(cs[n], selection[i].granularity, year, selection[i].values[k]);
      }
    }
  }

  /** A canonical selection can always be normalised again. */
  lemma CanonicalHasNoEdge(selection: Selection)
    requires CanonicalSelection(selection)
    ensures !YearEdge(selection)
  {
    var p :| CanonicalParts(p) && selection == Assemble(p);
    forall g ensures !(TopEdge(selection, g) || BottomEdge(selection, g)) {
      var runs := p.Runs(g);
      var base := |p.absolute| + if g == Month then 0 else |p.months|;
      assert CanonicalRuns(runs) && CanonicalTags(runs);
      forall year, v ensures InTag(LabelAt(runs, year), v) <==> Selects(selection, g, year, v) {
        AssembleSelects(p, g, year, v);
      }
      forall i | 0 <= i < |runs| ensures ValidYears(runs[i].span) {
        assert selection[base + i] == Recurring(g, runs[i].tag, runs[i].span);
        assert ValidClause(selection[base + i]);
      }
      RunsBuildableIffNoEdge(runs, selection, g);
    }
  }

  lemma CanonicalNoFullInterval(selection: Selection)
    requires CanonicalSelection(selection)
    ensures NoFullInterval(selection)
  {
    var p :| CanonicalParts(p) && selection == Assemble(p);
    forall i | 0 <= i < |selection| ensures selection[i] != Absolute(Interval(None, None)) {
      if i < |p.absolute| {
        assert selection[i] == Absolute(p.absolute[i]) && p.absolute[i] in p.absolute;
      }
    }
  }

  /** Rereading keeps exactly the days kept. */
  lemma RereadKeepsDays(selection: Selection)
    requires CanonicalSelection(selection)
    ensures forall day :: KeepsDay(RereadAll(selection), day) <==> AbsoluteCovers(selection, day)
  {
    CanonicalLeavesADay(selection);
    forall day { RereadCovers(selection, day); }
  }

  /** Without widening, rereading selects the same triples. */
  lemma RereadSameTriples(selection: Selection)
    requires WidensNothing(selection)
    ensures forall g, year, v :: Selects(selection, g, year, v) <==> Selects(RereadAll(selection), g, year, v)
  {
    RereadSelectsExactly(selection);
    forall g, year, v | Selects(selection, g, year, v) ensures Selects(RereadAll(selection), g, year, v) {
      RereadSelectsMore(selection, g, year, v);
    }
  }

  lemma RereadNormalForm(selection: Selection)
    requires CanonicalSelection(selection) && WidensNothing(selection)
    ensures !YearEdge(RereadAll(selection)) && IsNormalForm(RereadAll(selection), selection)
  {
    RereadKeepsDays(selection);
    RereadSameTriples(selection);
    RereadValid(selection);
    CanonicalHasNoEdge(selection);
    SameTriplesSameEdge(selection, RereadAll(selection));
  }

  lemma RereadNotNormalForm(selection: Selection)
    requires IsNormalForm(RereadAll(selection), selection)
    ensures WidensNothing(selection)
  {
    RereadSelectsExactly(selection);
  }

  /** Round trip: printing a canonical selection and parsing it returns the same
      value exactly when every absolute end lies in a year the grammar accepts and
      every value printed without its year span is selected in every year anyway. */
  lemma RoundTripExact(selection: Selection)
    requires CanonicalSelection(selection)
    ensures ParsesTo(FormattedSelection(selection), selection) <==> AllPrintable(selection) && WidensNothing(selection)
  {
    CanonicalNoFullInterval(selection);
    ParsePrintedSelection(selection);
    if WidensNothing(selection) {
      RereadNormalForm(selection);
    } else if IsNormalForm(RereadAll(selection), selection) {
      RereadNotNormalForm(selection);
    }
  }

  /** The documented case: no bounded clause has two values. */
  lemma RoundTripSingleValues(selection: Selection)
    requires CanonicalSelection(selection) && AllPrintable(selection)
    requires forall i | 0 <= i < |selection| && selection[i].Recurring? && selection[i].years != Interval(None, None) ::
               |selection[i].values| == 1
    ensures ParsesTo(FormattedSelection(selection), selection)
  {
    forall i, k, year | 0 <= i < |selection| && selection[i].Recurring? && 0 <= k && k + 1 < |selection[i].values|
      ensures Selects(selection, selection[i].granularity, year, selection[i].values[k])
    {
      assert ClauseSelects(selection[i], selection[i].granularity, year, selection[i].values[k]);
    }
    RoundTripExact(selection);
  }

  // --------------------------------------------------------------- calendar atoms

  lemma QuarterOfMonth(month: int, quarter: int)
    requires 1 <= month <= 12 && 1 <= quarter <= 4
    ensures (month - 1) / 3 + 1 == quarter <==> 3 * quarter - 2 <= month <= 3 * quarter
  {
  }

  /** The days `YYYYQn` names are exactly the dates of `@Qn[YYYY..YYYY]`. */
  lemma QuarterAtomIsRecurringQuarter(year: int, quarter: int, d: Date)
    requires IsValidYear(year) && 1 <= quarter <= 4 && ValidDate(d)
    ensures ClauseMatches(QuarterClause(year, quarter), d)
            <==> ClauseMatches(Recurring(Quarter, [quarter], Interval(Some(year), Some(year))), d)
  {
    MonthSpan(year, 3 * quarter - 2, 3 * quarter, d);
    QuarterOfMonth(d.month, quarter);
  }

  lemma QuarterAtomSplits(y: string, q: string)
    requires IsDigits(y) && |q| == 1 && IsDigits(q)
    ensures var text := y + "Q" + q;
            Strip(text) == text && text != "" && Find(text, "Q") == Some(|y|) && text[..|y|] == y
                && text[|y| + 1..] == q
  {
    var text := y + "Q" + q;
    DigitsAreNotMarks(y, 'Q');
    FindFirstSeparator(y, "Q", q);
    assert text[0] == y[0] && text[|text| - 1] == q[0];
    StripTrimmed(text);
  }

  /** `YYYYQn` parses to the interval of that quarter. */
  lemma ParseQuarterAtom(year: int, quarter: int)
    requires IsValidYear(year) && 1 <= quarter <= 4
    ensures AbsoluteAtom(Decimal(year) + "Q" + Decimal(quarter)) ==
            Success((Ordinal(Date(year, 3 * quarter - 2, 1)), EndOfMonth(year, 3 * quarter)))
  {
    var y, q := Decimal(year), Decimal(quarter);
    ParsePrintedYear(year);
    assert |q| == 1 && DigitValue(q[0]) == quarter;
    QuarterAtomSplits(y, q);
  }

  /** The days `YYYY-MM` names are exactly the dates of `@Mmm[YYYY..YYYY]`. */
  lemma MonthAtomIsRecurringMonth(year: int, month: int, d: Date)
    requires IsValidYear(year) && 1 <= month <= 12 && ValidDate(d)
    ensures ClauseMatches(Absolute(Interval(Some(Ordinal(Date(year, month, 1))), Some(EndOfMonth(year, month)))), d)
            <==> ClauseMatches(Recurring(Month, [month], Interval(Some(year), Some(year))), d)
  {
    MonthSpan(year, month, month, d);
  }

  lemma MonthAtomSplits(y: string, m: string)
    requires IsDigits(y) && IsDigits(m)
    ensures var text := y + "-" + m;
            Strip(text) == text && text != "" && Find(text, "Q") == None && Split(text, "-") == [y, m]
  {
    var text := y + "-" + m;
    assert text[0] == y[0] && text[|text| - 1] == m[|m| - 1];
    StripTrimmed(text);
    FindNothing(text, "Q");
    SplitAtSeparator(y, "-", m);
    SplitWhole(m, "-");
  }

  lemma ParseMonthText(y: string, m: string, year: int, month: int)
    requires IsDigits(y) && IsDigits(m) && ParseYear(y) == Success(year)
    requires 1 <= month <= 12 && DecimalValue(m) == month
    ensures AbsoluteAtom(y + "-" + m) == Success((Ordinal(Date(year, month, 1)), EndOfMonth(year, month)))
  {
    MonthAtomSplits(y, m);
  }

  lemma ParseMonthAtom(year: int, month: int)
    requires IsValidYear(year) && 1 <= month <= 12
    ensures AbsoluteAtom(Decimal(year) + "-" + Padded(month, 2))
              == Success((Ordinal(Date(year, month, 1)), EndOfMonth(year, month)))
  {
    ParsePrintedYear(year);
    ParseMonthText(Decimal(year), Padded(month, 2), year, month);
  }

  function QuarterClause(year: int, quarter: int): Clause
    requires 1 <= quarter <= 4
  {
    Absolute(Interval(Some(Ordinal(Date(year, 3 * quarter - 2, 1))), Some(EndOfMonth(year, 3 * quarter))))
  }

  function YearClause(year: int): Clause {
    Absolute(Interval(Some(Ordinal(Date(year, 1, 1))), Some(Ordinal(Date(year, 12, 31)))))
  }

  lemma QuartersAbut(year: int)
    ensures EndOfMonth(year, 3) + 1 == Ordinal(Date(year, 4, 1))
    ensures EndOfMonth(year, 6) + 1 == Ordinal(Date(year, 7, 1))
    ensures EndOfMonth(year, 9) + 1 == Ordinal(Date(year, 10, 1))
    ensures EndOfMonth(year, 12) == Ordinal(Date(year, 12, 31))
    ensures Ordinal(Date(year, 1, 1)) < EndOfMonth(year, 3) < EndOfMonth(year, 6)
    ensures EndOfMonth(year, 6) < EndOfMonth(year, 9) < EndOfMonth(year, 12)
  {
    NextMonthStarts(year, 3);
    NextMonthStarts(year, 6);
    NextMonthStarts(year, 9);
    MonthsIncrease(year, 1, 3);
    MonthsIncrease(year, 4, 6);
    MonthsIncrease(year, 7, 9);
    MonthsIncrease(year, 10, 12);
  }

  /** The four quarters of a year, in any leap state, normalise to that year's one
      clause and to nothing else. */
  lemma FourQuartersAreTheYear(year: int, selection: Selection)
    requires IsValidYear(year)
    ensures IsNormalForm([QuarterClause(year, 1), QuarterClause(year, 2), QuarterClause(year, 3),
                          QuarterClause(year, 4)], selection)
            <==> selection == [YearClause(year)]
  {
    var quarters := [QuarterClause(year, 1), QuarterClause(year, 2), QuarterClause(year, 3), QuarterClause(year, 4)];
    var whole := [YearClause(year)];
    QuartersAbut(year);
    YearClauseCanonical(year);
    forall day ensures AbsoluteCovers(quarters, day) <==> AbsoluteCovers(whole, day) {
      if AbsoluteCovers(whole, day) {
        var n := if day <= EndOfMonth(year, 3) then 0 else if day <= EndOfMonth(year, 6) then 1
            else if day <= EndOfMonth(year, 9) then 2 else 3;
        assert Covers(whole[0].days, day);
        assert Covers(quarters[n].days, day);
      }
      if AbsoluteCovers(quarters, day) {
        assert Covers(whole[0].days, day);
      }
    }
    CanonicalLeavesADay(whole);
    assert forall day :: KeepsDay(quarters, day) <==> AbsoluteCovers(whole, day);
    assert IsNormalForm(quarters, whole);
    if IsNormalForm(quarters, selection) {
      NormalFormsEqualIffEquivalent(quarters, selection, quarters, whole);
    }
  }

  lemma YearClauseCanonical(year: int)
    requires IsValidYear(year)
    ensures CanonicalSelection([YearClause(year)])
  {
    var p := Parts([YearClause(year).days], [], []);
    QuartersAbut(year);
    OrdinalRange(Date(year, 1, 1));
    OrdinalRange(Date(year, 12, 31));
    assert CanonicalParts(p);
    assert [YearClause(year)] == Assemble(p);
  }

  // ------------------------------------------------- where obvious claims fail

  /** `..` with `@Q1`: the July date the clauses match is lost by normalisation. */
  lemma AllDateCoverageLosesADate(selection: Selection)
    requires IsNormalForm([Absolute(Interval(None, None)), Recurring(Quarter, [1], Interval(None, None))], selection)
    ensures SelectionMatches([Absolute(Interval(None, None)), Recurring(Quarter, [1], Interval(None, None))],
                             Some(Date(2024, 7, 1)))
    ensures !SelectionMatches(selection, Some(Date(2024, 7, 1)))
  {
    var clauses := [Absolute(Interval(None, None)), Recurring(Quarter, [1], Interval(None, None))];
    var d := Date(2024, 7, 1);
    assert ClauseMatches(clauses[0], d);
    assert forall day :: Covers(clauses[0].days, day);
    assert HasRecurring(clauses) by { assert clauses[1].Recurring?; }
    assert !RecurringMatches(clauses, d);
    NormalFormPreservesMatches(clauses, selection, d);
  }

  /** `@Q1[1900..],@Q2` has no canonical form the clause constructor accepts. */
  lemma FirstYearIsAnEdge()
    ensures YearEdge([Recurring(Quarter, [1], Interval(Some(MIN_YEAR), None)),
                      Recurring(Quarter, [2], Interval(None, None))])
  {
    var clauses := [Recurring(Quarter, [1], Interval(Some(MIN_YEAR), None)),
                    Recurring(Quarter, [2], Interval(None, None))];
    assert OpenBottomed(clauses, Quarter, 1);
    assert StartsAtBottom(clauses, Quarter, 0) && 1 in clauses[0].values;
    assert forall i :: OpenBottomed(clauses, Quarter, i) ==> i == 1;
    assert BottomEdge(clauses, Quarter);
  }

  function FirstQuarter(): Selection {
    [Recurring(Quarter, [1], Interval(None, None))]
  }

  function FirstThreeMonths(): Selection {
    [Recurring(Month, [1, 2, 3], Interval(None, None))]
  }

  lemma FirstQuarterCanonical()
    ensures CanonicalSelection(FirstQuarter())
  {
    var p := Parts([], [], [Run(Interval(None, None), [1])]);
    assert p.Runs(Month) == [] && CanonicalParts(p);
    assert FirstQuarter() == Assemble(p);
  }

  lemma FirstThreeMonthsCanonical()
    ensures CanonicalSelection(FirstThreeMonths())
  {
    var p := Parts([], [Run(Interval(None, None), [1, 2, 3])], []);
    assert p.Runs(Quarter) == [] && CanonicalParts(p);
    assert FirstThreeMonths() == Assemble(p);
  }

  /** Canonical form is per granularity: `@Q1` and `@M01,@M02,@M03` match the same
      dates and stay different values. */
  lemma GranularitiesAreNotUnified(d: Date)
    requires ValidDate(d)
    ensures CanonicalSelection(FirstQuarter()) && CanonicalSelection(FirstThreeMonths())
    ensures FirstQuarter() != FirstThreeMonths()
    ensures SelectionMatches(FirstQuarter(), Some(d)) <==> SelectionMatches(FirstThreeMonths(), Some(d))
  {
    FirstQuarterCanonical();
    FirstThreeMonthsCanonical();
    assert FirstQuarter()[0].granularity != FirstThreeMonths()[0].granularity;
    assert ClauseMatches(FirstQuarter()[0], d) <==> ClauseMatches(FirstThreeMonths()[0], d);
  }

  ghost predicate OpenStart(clauses: seq<Clause>) {
    exists i :: 0 <= i < |clauses| && clauses[i].Absolute? && clauses[i].days.lo == None
  }

  ghost predicate OpenEnd(clauses: seq<Clause>) {
    exists i :: 0 <= i < |clauses| && clauses[i].Absolute? && clauses[i].days.hi == None
  }

  lemma CoverageBeyondCalendar(clauses: seq<Clause>, day: int)
    requires AllValid(clauses) && (day < 1 || MAX_ORDINAL < day)
    ensures AbsoluteCovers(clauses, day) <==> if day < 1 then OpenStart(clauses) else OpenEnd(clauses)
  {
    if AbsoluteCovers(clauses, day) {
      var i :| 0 <= i < |clauses| && clauses[i].Absolute? && Covers(clauses[i].days, day);
      assert ValidClause(clauses[i]);
    }
    if day < 1 && OpenStart(clauses) {
      var i :| 0 <= i < |clauses| && clauses[i].Absolute? && clauses[i].days.lo == None;
      assert ValidClause(clauses[i]);
      assert Covers(clauses[i].days, day);
    }
    if MAX_ORDINAL < day && OpenEnd(clauses) {
      var i :| 0 <= i < |clauses| && clauses[i].Absolute? && clauses[i].days.hi == None;
      assert ValidClause(clauses[i]);
      assert Covers(clauses[i].days, day);
    }
  }

  /** On the dates Python can represent: clause lists covering the same calendar
      days cover the same timeline exactly when they agree on being open at either
      end, so `..9999-12-31` and `..` are different values. */
  lemma CalendarDaysDecide(a: seq<Clause>, b: seq<Clause>)
    requires AllValid(a) && AllValid(b)
    requires forall day :: 1 <= day <= MAX_ORDINAL ==> (AbsoluteCovers(a, day) <==> AbsoluteCovers(b, day))
    ensures (forall day :: AbsoluteCovers(a, day) <==> AbsoluteCovers(b, day))
            <==> (OpenStart(a) <==> OpenStart(b)) && (OpenEnd(a) <==> OpenEnd(b))
  {
    forall day | day < 1 || MAX_ORDINAL < day
      ensures AbsoluteCovers(a, day) <==> if day < 1 then OpenStart(a) else OpenEnd(a)
      ensures AbsoluteCovers(b, day) <==> if day < 1 then OpenStart(b) else OpenEnd(b)
    {
      CoverageBeyondCalendar(a, day);
      CoverageBeyondCalendar(b, day);
    }
    if forall day :: AbsoluteCovers(a, day) <==> AbsoluteCovers(b, day) {
      assert AbsoluteCovers(a, 0) <==> AbsoluteCovers(b, 0);
      assert AbsoluteCovers(a, MAX_ORDINAL + 1) <==> AbsoluteCovers(b, MAX_ORDINAL + 1);
    }
  }
}
