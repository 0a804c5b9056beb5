/** Printing a canonical selection and parsing it back: what the text denotes,
    and exactly when the same value returns
    (edgar_sec/domain/filing_catalog/filters.py:325-357, 570-602, 663-685). */
module DateRoundTrip {
  import opened Common
  import opened Text
  import opened Intervals
  import opened Calendar
  import opened DateSelection
  import opened DateGrammar

  // ------------------------------------------------------------- years and days

  lemma {:induction false} ValueBelowPower(s: string)
    requires AllDigits(s)
    ensures DecimalValue(s) < Power10(|s|)
  {
    if s != "" {
      ValueBelowPower(s[..|s| - 1]);
    }
  }

  lemma FourDigits(s: string)
    requires |s| == 4 && AllDigits(s)
    ensures DecimalValue(s)
              == 1000 * DigitValue(s[0]) + 100 * DigitValue(s[1]) + 10 * DigitValue(s[2]) + DigitValue(s[3])
  {
    var t := s[..3];
    assert t[..2][..1][..0] == "" && t[..2][..1][0] == s[0] && t[..2][1] == s[1] && t[2] == s[2];
    assert DecimalValue(t[..2][..1]) == DigitValue(s[0]);
    assert DecimalValue(t[..2]) == 10 * DigitValue(s[0]) + DigitValue(s[1]);
    assert DecimalValue(t) == 100 * DigitValue(s[0]) + 10 * DigitValue(s[1]) + DigitValue(s[2]);
  }

  lemma Powers()
    ensures Power10(1) == 10 && Power10(2) == 100 && Power10(3) == 1000 && Power10(4) == 10000
  {
    assert Power10(1) == 10 * Power10(0);
    assert Power10(2) == 10 * Power10(1);
    assert Power10(3) == 10 * Power10(2);
    assert Power10(4) == 10 * Power10(3);
  }

  lemma FourDigitYear(y: int)
    requires 1000 <= y <= 9999
    ensures |Decimal(y)| == 4 && Padded(y, 4) == Decimal(y)
  {
    Powers();
    DecimalLength(y, 4, 10000);
    ValueBelowPower(Decimal(y));
    if |Decimal(y)| < 4 {
      PowerIncreases(|Decimal(y)|, 3);
    }
  }

  lemma {:induction false} PowerIncreases(a: nat, b: nat)
    requires a <= b
    ensures Power10(a) <= Power10(b)
    decreases b - a
  {
    if a < b {
      PowerIncreases(a, b - 1);
    }
  }

  lemma ParsePrintedYear(y: int)
    requires IsValidYear(y)
    ensures ParseYear(Decimal(y)) == Success(y)
  {
    FourDigitYear(y);
    FourDigits(Decimal(y));
    StripTrimmed(Decimal(y));
  }

  /** Four digits parse as a year exactly when they name a valid one. */
  lemma ParseFourDigits(s: string)
    requires |s| == 4 && AllDigits(s)
    ensures ParseYear(s) == if IsValidYear(DecimalValue(s)) then Success(DecimalValue(s)) else Failure
  {
    FourDigits(s);
    StripTrimmed(s);
  }

  lemma IsoSplits(year: string, month: string, day: string)
    requires AllDigits(year) && AllDigits(month) && AllDigits(day)
    requires year != "" && day != ""
    ensures var text := year + "-" + (month + "-" + day);
            && Strip(text) == text && text != ""
            && Find(text, "Q") == None
            && Split(text, "-") == [year, month, day]
  {
    var text := year + "-" + (month + "-" + day);
    assert text[0] == year[0] && text[|text| - 1] == day[|day| - 1];
    StripTrimmed(text);
    FindNothing(text, "Q");
    SplitAtSeparator(year, "-", month + "-" + day);
    SplitAtSeparator(month, "-", day);
    SplitWhole(day, "-");
  }

  lemma ParseIso(year: string, month: string, day: string, d: Date)
    requires AllDigits(year) && IsDigits(month) && IsDigits(day) && |year| == 4
    requires ValidDate(d) && d == Date(DecimalValue(year), DecimalValue(month), DecimalValue(day))
    ensures AbsoluteAtom(year + "-" + (month + "-" + day)) ==
            if IsValidYear(d.year) then Success((Ordinal(d), Ordinal(d))) else Failure
  {
    IsoSplits(year, month, day);
    ParseFourDigits(year);
  }

  /** A printed date parses to its own day exactly when its year is one the
      grammar accepts. */
  lemma ParsePrintedDay(n: int)
    requires 1 <= n <= MAX_ORDINAL
    ensures AbsoluteAtom(IsoFormat(n)) == if IsValidYear(FromOrdinal(n).year) then Success((n, n)) else Failure
  {
    var d := FromOrdinal(n);
    IsoLengths(d);
    ParseIso(Padded(d.year, 4), Padded(d.month, 2), Padded(d.day, 2), d);
  }

  lemma IsoLengths(d: Date)
    requires ValidDate(d)
    ensures |Padded(d.year, 4)| == 4 && |Padded(d.month, 2)| == 2 && |Padded(d.day, 2)| == 2
  {
    Powers();
    DecimalLength(d.year, 4, 10000);
    DecimalLength(d.month, 2, 100);
    DecimalLength(d.day, 2, 100);
  }

  // -------------------------------------------------------------- absolute terms

  /** Both ends of an absolute clause fall in years the grammar accepts. */
  predicate PrintableBound(bound: Option<int>)
    requires IsDay(bound)
  {
    bound.Some? ==> IsValidYear(FromOrdinal(bound.value).year)
  }

  predicate PrintableClause(c: Clause)
    requires ValidClause(c)
  {
    c.Absolute? ==> PrintableBound(c.days.lo) && PrintableBound(c.days.hi)
  }

  lemma IsoShape(n: int)
    requires 1 <= n <= MAX_ORDINAL
    ensures IsoFormat(n) != "" && Trimmed(IsoFormat(n))
    ensures '.' !in IsoFormat(n) && ',' !in IsoFormat(n) && IsoFormat(n)[0] != '@'
  {
    IsoLengths(FromOrdinal(n));
  }

  lemma BoundShape(bound: Option<int>)
    requires IsDay(bound)
    ensures '.' !in IsoBound(bound) && ',' !in IsoBound(bound)
    ensures bound.Some? <==> IsoBound(bound) != ""
    ensures Trimmed(IsoBound(bound))
    ensures bound.Some? ==> IsoBound(bound)[0] != '@'
  {
    if bound.Some? { IsoShape(bound.value); }
  }

  lemma ParseRangeText(lo: string, hi: string)
    requires '.' !in lo && '.' !in hi && ',' !in lo && ',' !in hi && Trimmed(lo) && Trimmed(hi)
    requires (lo != "" ==> lo[0] != '@') && (lo != "" || hi != "")
    ensures var text := lo + ".." + hi;
            && text != "" && Trimmed(text) && ',' !in text
            && ParseTerm(text) == ParseAbsolute(text)
            && Split(text, "..") == [lo, hi]
  {
    var text := lo + ".." + hi;
    assert text[0] == if lo == "" then '.' else lo[0];
    assert text[|text| - 1] == if hi == "" then '.' else hi[|hi| - 1];
    StripTrimmed(text);
    SplitAtSeparator(lo, "..", hi);
    SplitWhole(hi, "..");
  }

  lemma ParsePrintedEdges(bound: Option<int>)
    requires IsDay(bound)
    ensures StartEdge(IsoBound(bound)) == if PrintableBound(bound) then Success(bound) else Failure
    ensures EndEdge(IsoBound(bound)) == if PrintableBound(bound) then Success(bound) else Failure
  {
    BoundShape(bound);
    if bound.Some? { ParsePrintedDay(bound.value); }
  }

  lemma ParsePrintedAbsolute(c: Clause)
    requires ValidClause(c) && c.Absolute? && c.days != Interval(None, None)
    ensures ParseTerm(FormatClause(c)) == if PrintableClause(c) then Success(c) else Failure
    ensures FormatClause(c) != "" && Trimmed(FormatClause(c)) && ',' !in FormatClause(c)
  {
    BoundShape(c.days.lo);
    BoundShape(c.days.hi);
    ParsePrintedEdges(c.days.lo);
    ParsePrintedEdges(c.days.hi);
    ParseRangeText(IsoBound(c.days.lo), IsoBound(c.days.hi));
  }

  // ------------------------------------------------------------- recurring terms

  lemma ParsePrintedPeriod(g: Granularity, v: int)
    requires 1 <= v <= Limit(g)
    ensures ParsePeriod(PeriodText(g, v)) == Success((g, v))
    ensures '[' !in PeriodText(g, v) && ']' !in PeriodText(g, v) && ',' !in PeriodText(g, v)
    ensures PeriodText(g, v) != "" && !IsSpace(PeriodText(g, v)[|PeriodText(g, v)| - 1])
  {
    Powers();
    var text := PeriodText(g, v);
    if g == Month {
      DecimalLength(v, 2, 100);
      assert text[1..] == Padded(v, 2);
    } else {
      DecimalLength(v, 1, 10);
      assert text[1..] == Decimal(v);
    }
  }

  lemma YearTextShape(bound: Option<int>)
    requires bound.Some? ==> IsValidYear(bound.value)
    ensures AllDigits(YearText(bound)) && (bound.Some? <==> YearText(bound) != "")
    ensures ParseYearBound(YearText(bound)) == Success(bound)
  {
    if bound.Some? { ParsePrintedYear(bound.value); }
  }

  lemma ParsePrintedYears(years: Interval)
    requires ValidYears(years) && years != Interval(None, None)
    ensures ParseYears(YearText(years.lo) + ".." + YearText(years.hi)) == Success(years)
    ensures ',' !in SpanText(years)
  {
    YearTextShape(years.lo);
    YearTextShape(years.hi);
    DigitsAreNotMarks(YearText(years.lo), '.');
    DigitsAreNotMarks(YearText(years.hi), '.');
    SplitAtSeparator(YearText(years.lo), "..", YearText(years.hi));
    SplitWhole(YearText(years.hi), "..");
    assert Split(YearText(years.lo) + ".." + YearText(years.hi), "..") == [YearText(years.lo), YearText(years.hi)];
  }

  lemma ParseBarePeriod(period: string, g: Granularity, v: int)
    requires period != "" && '[' !in period && ']' !in period && !IsSpace(period[|period| - 1])
    requires ParsePeriod(period) == Success((g, v)) && ValidClause(Recurring(g, [v], Interval(None, None)))
    ensures ParseTerm("@" + period) == Success(Recurring(g, [v], Interval(None, None)))
    ensures Trimmed("@" + period)
  {
    var term := "@" + period;
    assert term[|term| - 1] == period[|period| - 1] && term[1..] == period;
    StripTrimmed(term);
    FindNothing(period, "[");
  }

  lemma BracketedBody(period: string, range: string, open: string, close: string)
    requires open == "[" && close == "]" && '[' !in period
    ensures var body := period + open + (range + close);
            && Find(body, open) == Some(|period|) && body[..|period|] == period
            && body[|body| - 1] == ']' && body[|period| + 1..|body| - 1] == range
  {
    FindFirstSeparator(period, open, range + close);
  }

  lemma TermOfBody(body: string)
    requires body != "" && !IsSpace(body[|body| - 1])
    ensures ParseTerm("@" + body) == ParseRecurring(body) && Trimmed("@" + body)
  {
    var term := "@" + body;
    assert term[|term| - 1] == body[|body| - 1] && term[1..] == body;
    StripTrimmed(term);
  }

  lemma ReadBody(body: string, i: nat, g: Granularity, v: int, years: Interval)
    requires Find(body, "[") == Some(i) && i < |body| - 1 && body[|body| - 1] == ']'
    requires ParsePeriod(body[..i]) == Success((g, v)) && ParseYears(body[i + 1..|body| - 1]) == Success(years)
    requires ValidClause(Recurring(g, [v], years))
    ensures ParseRecurring(body) == Success(Recurring(g, [v], years))
  {}

  lemma ParseBoundedPeriod(period: string, range: string, g: Granularity, v: int, years: Interval)
    requires '[' !in period
    requires ParsePeriod(period) == Success((g, v)) && ParseYears(range) == Success(years)
    requires ValidClause(Recurring(g, [v], years))
    ensures ParseRecurring(period + "[" + (range + "]")) == Success(Recurring(g, [v], years))
  {
    BracketedBody(period, range, "[", "]");
    ReadBody(period + "[" + (range + "]"), |period|, g, v, years);
  }

  lemma PrintedTermHasBody(at: string, period: string, range: string, open: string, close: string)
    ensures at + period + (open + range + close) == at + (period + open + (range + close))
  {}

  /** One printed period, with or without its year span, parses to that clause. */
  lemma ParsePrintedRecurring(g: Granularity, v: int, years: Interval)
    requires 1 <= v <= Limit(g) && ValidYears(years) && Ordered(years)
    ensures ParseTerm("@" + PeriodText(g, v) + SpanText(years)) == Success(Recurring(g, [v], years))
    ensures Trimmed("@" + PeriodText(g, v) + SpanText(years)) && ',' !in "@" + PeriodText(g, v) + SpanText(years)
  {
    ParsePrintedPeriod(g, v);
    if years == Interval(None, None) {
      ParseBarePeriod(PeriodText(g, v), g, v);
      assert "@" + PeriodText(g, v) + SpanText(years) == "@" + PeriodText(g, v);
    } else {
      ParsePrintedYears(years);
      var range := YearText(years.lo) + ".." + YearText(years.hi);
      ParseBoundedPeriod(PeriodText(g, v), range, g, v, years);
      PrintedTermHasBody("@", PeriodText(g, v), range, "[", "]");
      TermOfBody(PeriodText(g, v) + "[" + (range + "]"));
    }
  }

  // ----------------------------------------------- what a printed clause denotes

  /** The years the printer leaves on the `k`-th of `n` values: only the last
      value of a clause carries the span. */
  function PrintedYears(years: Interval, k: nat, n: nat): Interval {
    if k + 1 == n then years else Interval(None, None)
  }

  function PrintedTerms(c: Clause): seq<string>
    requires ValidClause(c)
  {
    match c
    case Absolute(_) => [FormatClause(c)]
    case Recurring(g, values, years) =>
      seq(|values|, k requires 0 <= k < |values| => "@" + PeriodText(g,
                                                                     values[k]) + SpanText(PrintedYears(years, k,
                                                                         |values|)))
  }

  function Reread(c: Clause): seq<Clause> {
    match c
    case Absolute(_) => [c]
    case Recurring(g, values, years) =>
      seq(|values|, k requires 0 <= k < |values| => Recurring(g, [values[k]], PrintedYears(years, k, |values|)))
  }

  lemma {:induction false} JoinThenSuffix(parts: seq<string>, sep: string, suffix: string)
    requires parts != []
    ensures Join(parts, sep) + suffix == Join(parts[..|parts| - 1] + [parts[|parts| - 1] + suffix], sep)
  {
    var last := |parts| - 1;
    if last == 0 {
      assert parts[..last] + [parts[last] + suffix] == [parts[0] + suffix];
    } else {
      JoinThenSuffix(parts[1..], sep, suffix);
      var t := parts[..last] + [parts[last] + suffix];
      assert t[1..] == parts[1..][..last - 1] + [parts[1..][last - 1] + suffix];
      assert t[0] == parts[0];
    }
  }

  /** The `k`-th printed term: the period, with the span on the last one. */
  lemma PrintedTermText(c: Clause, periods: seq<string>, k: nat)
    requires ValidClause(c) && c.Recurring? && periods == PeriodTexts(c.granularity, c.values) && k < |periods|
    ensures |PrintedTerms(c)| == |periods|
    ensures PrintedTerms(c)[k] == if k + 1 == |periods| then periods[k] + SpanText(c.years) else periods[k]
  {
    var text := periods[k];
    assert text + "" == text;
  }

  /** A printed clause is its terms joined by commas. */
  lemma PrintedClauseIsTerms(c: Clause)
    requires ValidClause(c)
    ensures PrintedTerms(c) != [] && Join(PrintedTerms(c), ",") == FormatClause(c)
  {
    if c.Recurring? {
      var periods := PeriodTexts(c.granularity, c.values);
      var n, suffix, terms := |periods|, SpanText(c.years), PrintedTerms(c);
      JoinThenSuffix(periods, ",", suffix);
      forall k | 0 <= k < n
        ensures |terms| == n && terms[k] == (if k + 1 == n then periods[k] + suffix else periods[k]) {
        PrintedTermText(c, periods, k);
      }
      SuffixedTerms(terms, periods, suffix);
    }
  }

  lemma SuffixedTerms(terms: seq<string>, periods: seq<string>, suffix: string)
    requires periods != [] && |terms| == |periods|
    requires forall k :: 0 <= k < |periods| ==>
               terms[k] == if k + 1 == |periods| then periods[k] + suffix else periods[k]
    ensures terms == periods[..|periods| - 1] + [periods[|periods| - 1] + suffix]
  {}

  lemma PrintedTermParses(c: Clause, k: nat)
    requires ValidClause(c) && (c.Absolute? ==> c.days != Interval(None, None))
    requires k < |PrintedTerms(c)|
    ensures |Reread(c)| == |PrintedTerms(c)|
    ensures ParseTerm(PrintedTerms(c)[k]) == if PrintableClause(c) then Success(Reread(c)[k]) else Failure
    ensures ',' !in PrintedTerms(c)[k] && Trimmed(PrintedTerms(c)[k]) && PrintedTerms(c)[k] != ""
  {
    if c.Absolute? {
      ParsePrintedAbsolute(c);
    } else {
      ParsePrintedRecurring(c.granularity, c.values[k], PrintedYears(c.years, k, |c.values|));
    }
  }

  // ------------------------------------------------------------ whole selections

  function Flatten<T>(groups: seq<seq<T>>): seq<T> {
    if groups == [] then [] else groups[0] + Flatten(groups[1..])
  }

  /** Where the `k`-th flattened element comes from, in two parallel groupings. */
  lemma {:induction false} FlattenLocate<T, U>(gs: seq<seq<T>>, hs: seq<seq<U>>, k: nat) returns (i: nat, j: nat)
    requires |gs| == |hs| && forall n :: 0 <= n < |gs| ==> |gs[n]| == |hs[n]|
    requires k < |Flatten(gs)|
    ensures i < |gs| && j < |gs[i]| && Flatten(gs)[k] == gs[i][j]
    ensures k < |Flatten(hs)| && Flatten(hs)[k] == hs[i][j]
  {
    if k < |gs[0]| {
      i, j := 0, k;
    } else {
      i, j := FlattenLocate(gs[1..], hs[1..], k - |gs[0]|);
      i := i + 1;
    }
  }

  lemma {:induction false} FlattenLength<T, U>(gs: seq<seq<T>>, hs: seq<seq<U>>)
    requires |gs| == |hs| && forall n :: 0 <= n < |gs| ==> |gs[n]| == |hs[n]|
    ensures |Flatten(gs)| == |Flatten(hs)|
  {
    if gs != [] {
      FlattenLength(gs[1..], hs[1..]);
    }
  }

  lemma {:induction false} FlattenHas<T>(gs: seq<seq<T>>, i: nat, j: nat)
    requires i < |gs| && j < |gs[i]|
    ensures gs[i][j] in Flatten(gs)
  {
    if i > 0 {
      FlattenHas(gs[1..], i - 1, j);
    }
  }

  /** Joining joined groups is joining everything. */
  lemma {:induction false} JoinFlatten(texts: seq<string>, groups: seq<seq<string>>, sep: string)
    requires |texts| == |groups|
    requires forall n :: 0 <= n < |groups| ==> groups[n] != [] && texts[n] == Join(groups[n], sep)
    ensures groups != [] ==> Flatten(groups) != []
    ensures Join(texts, sep) == Join(Flatten(groups), sep)
  {
    if |groups| == 1 {
      assert Flatten(groups) == groups[0];
    } else if |groups| > 1 {
      JoinFlatten(texts[1..], groups[1..], sep);
      JoinAppend(groups[0], Flatten(groups[1..]), sep);
    }
  }

  ghost predicate NoFullInterval(selection: Selection) {
    forall i :: 0 <= i < |selection| ==> selection[i] != Absolute(Interval(None, None))
  }

  ghost predicate AllPrintable(selection: Selection)
    requires AllValid(selection)
  {
    forall i :: 0 <= i < |selection| ==> PrintableClause(selection[i])
  }

  function TermGroups(selection: Selection): seq<seq<string>>
    requires AllValid(selection)
  {
    seq(|selection|, i requires 0 <= i < |selection| => PrintedTerms(selection[i]))
  }

  function RereadGroups(selection: Selection): seq<seq<Clause>> {
    seq(|selection|, i requires 0 <= i < |selection| => Reread(selection[i]))
  }

  /** The clauses a reader of the printed text gets. */
  function RereadAll(selection: Selection): seq<Clause> {
    Flatten(RereadGroups(selection))
  }

  lemma PrintedSelectionIsTerms(selection: Selection)
    requires AllValid(selection) && selection != []
    ensures Flatten(TermGroups(selection)) != []
    ensures FormattedSelection(selection) == Join(Flatten(TermGroups(selection)), ",")
  {
    var texts, groups := FormattedTerms(selection), TermGroups(selection);
    forall i | 0 <= i < |selection| ensures groups[i] != [] && texts[i] == Join(groups[i], ",") {
      PrintedClauseIsTerms(selection[i]);
    }
    JoinFlatten(texts, groups, ",");
  }

  lemma GroupsParallel(selection: Selection)
    requires AllValid(selection)
    ensures |TermGroups(selection)| == |RereadGroups(selection)| == |selection|
    ensures forall n :: 0 <= n < |selection| ==> |TermGroups(selection)[n]| == |RereadGroups(selection)[n]|
  {
  }

  /** Every term of the printed text is well shaped and parses to the clause the
      reader expects, unless its year is outside the grammar. */
  lemma PrintedTermsParse(selection: Selection, k: nat)
    requires AllValid(selection) && NoFullInterval(selection)
    requires k < |Flatten(TermGroups(selection))|
    ensures k < |RereadAll(selection)|
    ensures var term := Flatten(TermGroups(selection))[k];
            && ',' !in term && Trimmed(term) && term != ""
            && (AllPrintable(selection) ==> ParseTerm(term) == Success(RereadAll(selection)[k]))
  {
    GroupsParallel(selection);
    var i, j := FlattenLocate(TermGroups(selection), RereadGroups(selection), k);
    PrintedTermParses(selection[i], j);
  }

  /** An absolute clause outside the grammar's years leaves an unparsable term. */
  lemma UnprintableTerm(selection: Selection)
    requires AllValid(selection) && NoFullInterval(selection) && !AllPrintable(selection)
    ensures exists k :: 0 <= k < |Flatten(TermGroups(selection))|
              && ParseTerm(Flatten(TermGroups(selection))[k]).Failure?
  {
    var i :| 0 <= i < |selection| && !PrintableClause(selection[i]);
    PrintedTermParses(selection[i], 0);
    FlattenHas(TermGroups(selection), i, 0);
  }

  lemma {:induction false} JoinTrimmed(terms: seq<string>)
    requires terms != [] && forall k :: 0 <= k < |terms| ==> Trimmed(terms[k]) && terms[k] != ""
    ensures Trimmed(Join(terms, ",")) && Join(terms, ",") != ""
  {
    if |terms| > 1 {
      JoinTrimmed(terms[1..]);
      var rest := Join(terms[1..], ",");
      var whole := terms[0] + "," + rest;
      assert whole[0] == terms[0][0] && whole[|whole| - 1] == rest[|rest| - 1];
    }
  }

  lemma ParseJoinedTerms(terms: seq<string>)
    requires terms != []
    requires forall k :: 0 <= k < |terms| ==> ',' !in terms[k] && Trimmed(terms[k]) && terms[k] != ""
    ensures ParseClauses(Join(terms, ",")) == ParseTerms(terms)
  {
    JoinTrimmed(terms);
    StripTrimmed(Join(terms, ","));
    SplitJoin(terms, ",");
  }

  lemma ParseTermsTo(terms: seq<string>, clauses: seq<Clause>)
    requires |terms| == |clauses| && forall k :: 0 <= k < |terms| ==> ParseTerm(terms[k]) == Success(clauses[k])
    ensures ParseTerms(terms) == Success(clauses)
  {
    ParseTermsTotal(terms);
    ParseTermsValid(terms);
    assert ParseTerms(terms).value == clauses;
  }

  /** The printed text of a selection denotes exactly the reread clauses, or fails
      to parse when an absolute end lies outside the grammar's years. */
  lemma ParsePrintedSelection(selection: Selection)
    requires AllValid(selection) && NoFullInterval(selection)
    ensures ParseClauses(FormattedSelection(selection)) ==
            if AllPrintable(selection) then Success(RereadAll(selection)) else Failure
  {
    if selection == [] {
      StripTrimmed("");
    } else {
      var terms := Flatten(TermGroups(selection));
      PrintedSelectionIsTerms(selection);
      forall k | 0 <= k < |terms|
        ensures ',' !in terms[k] && Trimmed(terms[k]) && terms[k] != ""
        ensures k < |RereadAll(selection)|
        ensures (AllPrintable(selection) ==> ParseTerm(terms[k]) == Success(RereadAll(selection)[k]))
      {
        PrintedTermsParse(selection, k);
      }
      ParseJoinedTerms(terms);
      if AllPrintable(selection) {
        GroupsParallel(selection);
        FlattenLength(TermGroups(selection), RereadGroups(selection));
        ParseTermsTo(terms, RereadAll(selection));
      } else {
        UnprintableTerm(selection);
        ParseTermsTotal(terms);
      }
    }
  }
}
