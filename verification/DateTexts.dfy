/** The language of recurring terms and of whole date texts: what is accepted, and which
    dates a text selects (edgar_sec/domain/filing_catalog/filters.py:325-380, 570-593). */
module DateTexts {
  import opened Common
  import opened Text
  import opened Intervals
  import opened Calendar
  import opened DateSelection
  import opened DateGrammar
  import opened DateRoundTrip
  import opened DateTheorems
  import opened DateLanguage

  // -------------------------------------------------------------- recurring terms

  /** A period of every year from `first` to `last`, either end perhaps open. */
  datatype RecurringTerm = Every(g: Granularity, v: int, first: Option<int>, last: Option<int>)

  /** `Qn`, or `M` and the month in one or two digits. */
  ghost predicate PeriodSpelled(text: string, g: Granularity, v: int) {
    match g
    case Quarter => 1 <= v <= 4 && text == "Q" + Decimal(v)
    case Month => exists digits :: text == "M" + digits && |digits| <= 2 && MonthSpelled(digits, v)
  }

  predicate BoundSpelled(text: string, bound: Option<int>) {
    match bound
    case None => text == ""
    case Some(y) => text != "" && YearSpelled(text, y)
  }

  /** Nothing, empty brackets, or a year range with at least one end. */
  ghost predicate YearsSpelled(text: string, first: Option<int>, last: Option<int>) {
    || (text == "" && first.None? && last.None?)
    || (text == "[" + ("" + "]") && first.None? && last.None?)
    || ((first.Some? || last.Some?)
        && exists a, b :: BoundSpelled(a, first) && BoundSpelled(b, last) && text == "[" + (a + ".." + b + "]"))
  }

  ghost predicate RecurringSpelled(token: string, t: RecurringTerm) {
    && (t.first.Some? && t.last.Some? ==> t.first.value <= t.last.value)
    && exists period, years ::
         && PeriodSpelled(period, t.g, t.v) && YearsSpelled(years, t.first, t.last)
         && token == "@" + (period + years)
  }

  predicate RecurringHolds(t: RecurringTerm, d: Date) {
    && (t.first.Some? ==> t.first.value <= d.year) && (t.last.Some? ==> d.year <= t.last.value)
    && match t.g
       case Quarter => 3 * t.v - 2 <= d.month <= 3 * t.v
       case Month => d.month == t.v
  }

  lemma PeriodAccepted(text: string, g: Granularity, v: int)
    requires PeriodSpelled(text, g, v)
    ensures ParsePeriod(text) == Success((g, v)) && 1 <= v <= Limit(g)
    ensures '[' !in text && ']' !in text && text != ""
  {
    match g {
      case Quarter =>
        QuarterDigit(v);
        assert text[1..] == Decimal(v);
        DigitsAreNotMarks(Decimal(v), '[');
        DigitsAreNotMarks(Decimal(v), ']');
      case Month =>
        var digits :| text == "M" + digits && |digits| <= 2 && MonthSpelled(digits, v);
        assert text[1..] == digits;
        DigitsAreNotMarks(digits, '[');
        DigitsAreNotMarks(digits, ']');
    }
  }

  lemma PeriodIsSpelled(text: string)
    requires ParsePeriod(text).Success?
    ensures PeriodSpelled(text, ParsePeriod(text).value.0, ParsePeriod(text).value.1)
  {
    var (g, v) := ParsePeriod(text).value;
    assert text == [text[0]] + text[1..];
    if g == Quarter {
      QuarterDigit(v);
      assert text[1..] == [text[1]] == Decimal(v);
    } else {
      assert text == "M" + text[1..] && MonthSpelled(text[1..], v);
    }
  }

  lemma BoundIff(text: string, bound: Option<int>)
    ensures ParseYearBound(text) == Success(bound) <==> BoundSpelled(text, bound)
  {
    if bound.Some? {
      YearIff(text, bound.value);
    }
  }

  lemma BoundHasNo(text: string, bound: Option<int>, c: char)
    requires BoundSpelled(text, bound) && !IsDigit(c) && !IsSpace(c)
    ensures c !in text
  {
    if bound.Some? { YearHasNo(text, bound.value, c); }
  }

  lemma RangeRead(a: string, b: string, first: Option<int>, last: Option<int>)
    requires BoundSpelled(a, first) && BoundSpelled(b, last) && (first.Some? || last.Some?)
    ensures ParseYears(a + ".." + b) == Success(Interval(first, last))
  {
    BoundHasNo(a, first, '.');
    BoundHasNo(b, last, '.');
    SplitTwo(a, b, "..");
    BoundIff(a, first);
    BoundIff(b, last);
  }

  lemma RangeIsRead(text: string)
    requires text != "" && ParseYears(text).Success?
    ensures var years := ParseYears(text).value;
            && (years.lo.Some? || years.hi.Some?)
            && exists a, b :: BoundSpelled(a, years.lo) && BoundSpelled(b, years.hi) && text == a + ".." + b
  {
    var parts := Split(text, "..");
    JoinSplit(text, "..");
    assert Join(parts[1..], "..") == parts[1];
    assert text == parts[0] + ".." + parts[1];
    var years := ParseYears(text).value;
    BoundIff(parts[0], years.lo);
    BoundIff(parts[1], years.hi);
    StripTrimmed("..");
  }

  lemma YearsValid(text: string, first: Option<int>, last: Option<int>)
    requires YearsSpelled(text, first, last)
    ensures ValidYears(Interval(first, last))
  {
    if first.Some? || last.Some? {
      var a, b :| BoundSpelled(a, first) && BoundSpelled(b, last) && text == "[" + (a + ".." + b + "]");
    }
  }

  /** The bracketed years are read as they are spelled. */
  lemma BracketRead(period: string, g: Granularity, v: int, range: string, years: Interval)
    requires PeriodSpelled(period, g, v) && ParseYears(range) == Success(years)
    requires ValidClause(Recurring(g, [v], years))
    ensures ParseRecurring(period + ("[" + (range + "]"))) == Success(Recurring(g, [v], years))
  {
    PeriodAccepted(period, g, v);
    ParseBoundedPeriod(period, range, g, v, years);
    Regrouped(period, "[", range + "]");
  }

  lemma Regrouped(a: string, b: string, c: string)
    ensures a + (b + c) == a + b + c
  {}

  lemma BareRead(period: string, g: Granularity, v: int)
    requires PeriodSpelled(period, g, v)
    ensures ParseRecurring(period + "") == Success(Recurring(g, [v], Interval(None, None)))
  {
    PeriodAccepted(period, g, v);
    assert period + "" == period;
    FindNothing(period, "[");
  }

  function RecurringClause(t: RecurringTerm): Clause {
    Recurring(t.g, [t.v], Interval(t.first, t.last))
  }

  lemma RangedRead(period: string, years: string, t: RecurringTerm)
    requires PeriodSpelled(period, t.g, t.v) && YearsSpelled(years, t.first, t.last)
    requires (t.first.Some? || t.last.Some?) && ValidClause(RecurringClause(t))
    ensures ParseRecurring(period + years) == Success(RecurringClause(t))
  {
    var a, b :| BoundSpelled(a, t.first) && BoundSpelled(b, t.last) && years == "[" + (a + ".." + b + "]");
    RangeRead(a, b, t.first, t.last);
    BracketRead(period, t.g, t.v, a + ".." + b, Interval(t.first, t.last));
  }

  lemma SpelledClauseValid(period: string, years: string, t: RecurringTerm)
    requires PeriodSpelled(period, t.g, t.v) && YearsSpelled(years, t.first, t.last)
    requires t.first.Some? && t.last.Some? ==> t.first.value <= t.last.value
    ensures ValidClause(RecurringClause(t))
  {
    PeriodAccepted(period, t.g, t.v);
    YearsValid(years, t.first, t.last);
  }

  lemma PartsRead(period: string, years: string, t: RecurringTerm)
    requires PeriodSpelled(period, t.g, t.v) && YearsSpelled(years, t.first, t.last)
    requires ValidClause(RecurringClause(t))
    ensures ParseRecurring(period + years) == Success(RecurringClause(t))
  {
    if years == "" {
      BareRead(period, t.g, t.v);
    } else if t.first.None? && t.last.None? {
      BracketRead(period, t.g, t.v, "", Interval(None, None));
    } else {
      RangedRead(period, years, t);
    }
  }

  /** A spelled recurring term is accepted. */
  lemma RecurringAccepted(token: string, t: RecurringTerm)
    requires RecurringSpelled(token, t)
    ensures token != "" && token[0] == '@' && ParseRecurring(token[1..]) == Success(RecurringClause(t))
    ensures ValidClause(RecurringClause(t))
  {
    var period, years :|
      && PeriodSpelled(period, t.g, t.v) && YearsSpelled(years, t.first, t.last) && token == "@" + (period + years);
    SpelledClauseValid(period, years, t);
    PartsRead(period, years, t);
    assert token[1..] == period + years;
  }

  lemma BracketIsSpelled(body: string, i: nat)
    requires Find(body, "[") == Some(i) && body != "" && body[|body| - 1] == ']'
    ensures i < |body| - 1 && body == body[..i] + ("[" + (body[i + 1..|body| - 1] + "]"))
  {
    assert body[i..i + 1] == [body[i]];
    assert body == body[..i] + [body[i]] + body[i + 1..|body| - 1] + [body[|body| - 1]];
  }

  /** Whatever is accepted after the at sign spells a recurring term. */
  lemma RecurringIsSpelled(body: string) returns (t: RecurringTerm)
    requires ParseRecurring(body).Success?
    ensures RecurringSpelled("@" + body, t)
  {
    match Find(body, "[") {
      case None =>
        var (g, v) := ParsePeriod(body).value;
        PeriodIsSpelled(body);
        t := Every(g, v, None, None);
        assert "@" + body == "@" + (body + "");
        assert YearsSpelled("", None, None);
      case Some(i) =>
        BracketIsSpelled(body, i);
        t := BracketTerm(body, i);
    }
  }

  lemma YearsOfRange(range: string)
    requires ParseYears(range).Success?
    ensures YearsSpelled("[" + (range + "]"), ParseYears(range).value.lo, ParseYears(range).value.hi)
  {
    if range != "" {
      RangeIsRead(range);
      var years := ParseYears(range).value;
      var a, b :| BoundSpelled(a, years.lo) && BoundSpelled(b, years.hi) && range == a + ".." + b;
      SameBracket(range, a + "..", b, "[", "]");
    }
  }

  lemma SameBracket(range: string, a: string, b: string, open: string, close: string)
    requires range == a + b
    ensures open + (range + close) == open + (a + b + close)
  {}

  /** What an accepted bracketed body holds. */
  lemma BracketParts(body: string, i: nat)
    requires Find(body, "[") == Some(i) && i < |body| - 1 && body[|body| - 1] == ']'
    requires ParseRecurring(body).Success?
    ensures ParsePeriod(body[..i]).Success? && ParseYears(body[i + 1..|body| - 1]).Success?
    ensures Ordered(ParseYears(body[i + 1..|body| - 1]).value)
  {}

  lemma BracketTerm(body: string, i: nat) returns (t: RecurringTerm)
    requires Find(body, "[") == Some(i) && i < |body| - 1 && body[|body| - 1] == ']'
    requires body == body[..i] + ("[" + (body[i + 1..|body| - 1] + "]"))
    requires ParseRecurring(body).Success?
    ensures RecurringSpelled("@" + body, t)
  {
    BracketParts(body, i);
    t := MakeTerm(body[..i], body[i + 1..|body| - 1]);
  }

  lemma MakeTerm(period: string, range: string) returns (t: RecurringTerm)
    requires ParsePeriod(period).Success? && ParseYears(range).Success? && Ordered(ParseYears(range).value)
    ensures RecurringSpelled("@" + (period + ("[" + (range + "]"))), t)
  {
    var (g, v) := ParsePeriod(period).value;
    var years := ParseYears(range).value;
    PeriodIsSpelled(period);
    YearsOfRange(range);
    t := Every(g, v, years.lo, years.hi);
  }

  lemma RecurringMatches(t: RecurringTerm, d: Date)
    requires ValidClause(RecurringClause(t)) && ValidDate(d)
    ensures ClauseMatches(RecurringClause(t), d) <==> RecurringHolds(t, d)
  {
    assert PeriodOf(t.g, d) in [t.v] <==> PeriodOf(t.g, d) == t.v;
    assert (d.month - 1) / 3 + 1 == t.v <==> 3 * t.v - 2 <= d.month <= 3 * t.v;
  }

  // ---------------------------------------------------------------------- any term

  datatype Term = Days(absolute: AbsoluteTerm) | Periods(recurring: RecurringTerm)

  ghost predicate TermSpelled(token: string, t: Term) {
    match t
    case Days(absolute) => AbsoluteSpelled(token, absolute)
    case Periods(recurring) => RecurringSpelled(token, recurring)
  }

  ghost predicate TermHolds(t: Term, d: Date) {
    match t
    case Days(absolute) => AbsoluteHolds(absolute, d)
    case Periods(recurring) => RecurringHolds(recurring, d)
  }

  lemma AbsoluteStart(token: string, t: AbsoluteTerm)
    requires AbsoluteSpelled(token, t)
    ensures token != "" && token[0] != '@'
  {
    match t {
      case One(atom) =>
        SpelledHasNo(token, atom, '@');
        SpelledNonempty(token, atom);
      case Between(left, right) =>
        var a, b :| token == a + ".." + b && SideSpelled(a, left) && SideSpelled(b, right);
        if left.Some? { SpelledHasNo(a, left.value, '@'); }
        assert token[0] == if a == "" then '.' else a[0];
    }
  }

  lemma SpelledNonempty(token: string, atom: DateAtom)
    requires Spells(token, atom)
    ensures token != ""
  {
    AtomAccepted(token, atom);
  }

  /** A spelled term is accepted and its clause matches exactly the dates it means. */
  lemma TermAccepted(raw: string, t: Term, d: Date)
    requires TermSpelled(Strip(raw), t) && ValidDate(d)
    ensures ParseTerm(raw).Success? && (ClauseMatches(ParseTerm(raw).value, d) <==> TermHolds(t, d))
  {
    var token := Strip(raw);
    match t {
      case Days(absolute) =>
        AbsoluteStart(token, absolute);
        AbsoluteAccepted(token, absolute, d);
      case Periods(recurring) =>
        RecurringAccepted(token, recurring);
        RecurringMatches(recurring, d);
    }
  }

  lemma TermIsSpelled(raw: string) returns (t: Term)
    requires ParseTerm(raw).Success?
    ensures TermSpelled(Strip(raw), t)
  {
    var token := Strip(raw);
    if token[0] == '@' {
      assert token == "@" + token[1..];
      var recurring := RecurringIsSpelled(token[1..]);
      t := Periods(recurring);
    } else {
      var absolute := AbsoluteIsSpelled(token);
      t := Days(absolute);
    }
  }

  /** A term is accepted exactly when it is spelled in one of the ways of the language. */
  lemma TermIff(raw: string)
    ensures ParseTerm(raw).Success? <==> exists t :: TermSpelled(Strip(raw), t)
  {
    if ParseTerm(raw).Success? {
      var t := TermIsSpelled(raw);
    }
    if t :| TermSpelled(Strip(raw), t) {
      TermAccepted(raw, t, Date(2000, 1, 1));
    }
  }

  // ------------------------------------------------------------------------ whole texts

  /** The comma-separated terms. */
  function TermsOf(text: string): seq<string> {
    if Strip(text) == "" then [] else Split(Strip(text), ",")
  }

  /** The `k`-th term means the date. */
  ghost predicate TermMeans(text: string, k: int, d: Date) {
    0 <= k < |TermsOf(text)| && exists t :: TermSpelled(Strip(TermsOf(text)[k]), t) && TermHolds(t, d)
  }

  /** The token spells a term. */
  ghost predicate Spelled(token: string) {
    exists t :: TermSpelled(token, t)
  }

  lemma AcceptedTerms(text: string)
    ensures ParseClauses(text).Success? <==> forall k :: 0 <= k < |TermsOf(text)| ==> Spelled(Strip(TermsOf(text)[k]))
  {
    var terms := TermsOf(text);
    ParseTermsTotal(terms);
    forall k | 0 <= k < |terms| ensures ParseTerm(terms[k]).Success? <==> Spelled(Strip(terms[k])) {
      TermIff(terms[k]);
    }
  }

  lemma ClausesOfTerms(text: string)
    requires ParseClauses(text).Success?
    ensures |ParseClauses(text).value| == |TermsOf(text)| && AllValid(ParseClauses(text).value)
    ensures forall k :: 0 <= k < |TermsOf(text)| ==>
              ParseTerm(TermsOf(text)[k]) == Success(ParseClauses(text).value[k])
  {
    ParseTermsValid(TermsOf(text));
  }

  lemma ClausesMean(text: string, d: Date)
    requires ParseClauses(text).Success? && Strip(text) != "" && ValidDate(d)
    ensures AllValid(ParseClauses(text).value)
    ensures SelectionMatches(ParseClauses(text).value, Some(d)) <==> exists k :: TermMeans(text, k, d)
  {
    ClausesOfTerms(text);
    var terms, clauses := TermsOf(text), ParseClauses(text).value;
    JoinSplit(Strip(text), ",");
    forall k | 0 <= k < |terms| ensures ClauseMatches(clauses[k], d) <==> TermMeans(text, k, d) {
      ClauseMeans(text, k, d);
    }
    if k :| TermMeans(text, k, d) {
      assert ClauseMatches(clauses[k], d);
    }
  }

  lemma ClauseMeans(text: string, k: nat, d: Date)
    requires k < |TermsOf(text)| && ParseTerm(TermsOf(text)[k]).Success? && ValidDate(d)
    ensures ClauseMatches(ParseTerm(TermsOf(text)[k]).value, d) <==> TermMeans(text, k, d)
  {
    var term := TermsOf(text)[k];
    var t := TermIsSpelled(term);
    TermAccepted(term, t, d);
    if u :| TermSpelled(Strip(term), u) && TermHolds(u, d) {
      TermAccepted(term, u, d);
    }
  }

  /** A text denotes clauses exactly when each of its terms spells something; it is then
      refused only for a year edge. */
  lemma TextRefusedIff(text: string)
    ensures ParseClauses(text).Failure? <==>
              exists k :: 0 <= k < |TermsOf(text)| && !Spelled(Strip(TermsOf(text)[k]))
  {
    AcceptedTerms(text);
  }

  /** An accepted text selects exactly the dates one of its terms means; the empty text
      selects all.  Only when absolute terms together cover every day does the text fall
      back to its recurring terms, if it has any. */
  lemma TextMeans(text: string, selection: Selection, d: Date)
    requires ParsesTo(text, selection) && ValidDate(d)
    ensures Strip(text) == "" ==> SelectionMatches(selection, Some(d))
    ensures Strip(text) != "" ==>
              var clauses := ParseClauses(text).value;
              ((SelectionMatches(selection, Some(d)) <==> exists k :: TermMeans(text, k, d)) <==>
                !(CoversEveryDay(clauses) && HasRecurring(clauses) && !DateSelection.RecurringMatches(clauses, d)))
  {
    var clauses := ParseClauses(text).value;
    ClausesOfTerms(text);
    NormalFormPreservesMatches(clauses, selection, d);
    if Strip(text) != "" {
      ClausesMean(text, d);
    } else {
      assert clauses == [];
      NormalFormEmpty(clauses, selection);
    }
  }

  /** A text of one term denotes one clause. */
  lemma OneTerm(text: string, t: Term, d: Date)
    requires Trimmed(text) && text != "" && ',' !in text && TermSpelled(text, t) && ValidDate(d)
    ensures Strip(text) == text && TermsOf(text) == [text]
    ensures ParseClauses(text).Success? && ParseTerm(text) == Success(ParseClauses(text).value[0])
    ensures |ParseClauses(text).value| == 1
    ensures (exists k :: TermMeans(text, k, d)) <==> TermHolds(t, d)
  {
    StripTrimmed(text);
    SplitWhole(text, ",");
    TermAccepted(text, t, d);
    AcceptedTerms(text);
    assert Spelled(Strip(TermsOf(text)[0]));
    ClausesOfTerms(text);
    ClauseMeans(text, 0, d);
    assert forall k :: TermMeans(text, k, d) ==> k == 0;
  }

  /** A year's four digits select exactly that year. */
  lemma YearTextMeans(y: int, selection: Selection, d: Date)
    requires MIN_YEAR <= y <= MAX_YEAR && ValidDate(d) && ParsesTo(Decimal(y), selection)
    ensures SelectionMatches(selection, Some(d)) <==> d.year == y
  {
    var text, t := Decimal(y), Days(One(YearAtom(y)));
    DigitsAreTrimmed(text);
    StripTrimmed(text);
    DigitsAreNotMarks(text, ',');
    OneTerm(text, t, d);
    AbsoluteTermsOnly(text, One(YearAtom(y)));
    TextMeans(text, selection, d);
  }

  lemma AbsoluteTermsOnly(text: string, t: AbsoluteTerm)
    requires ParseClauses(text).Success? && |ParseClauses(text).value| == 1 && Strip(text) == text
    requires ParseTerm(text) == Success(ParseClauses(text).value[0]) && AbsoluteSpelled(text, t)
    ensures !HasRecurring(ParseClauses(text).value)
  {
    AbsoluteStart(text, t);
  }

  /** A quarter is printed with its digit, a month with exactly two digits. */
  lemma PrintedPeriod(g: Granularity, v: int)
    requires 1 <= v <= Limit(g)
    ensures var text := PeriodText(g, v);
            && (g == Quarter ==> |text| == 2 && text[0] == 'Q' && text[1] as int == '0' as int + v)
            && (g == Month ==> |text| == 3 && text[0] == 'M' && IsDigits(text[1..]) && DecimalValue(text[1..]) == v)
  {
    Powers();
    if g == Month {
      DecimalLength(v, 2, 100);
      assert PeriodText(g, v)[1..] == Padded(v, 2);
    } else {
      QuarterDigit(v);
    }
  }
}
