/** The `--dates` grammar: parser and printer of date selections, and their round
    trip (edgar_sec/domain/filing_catalog/filters.py:238-357, 570-602, 663-685).
    Error messages are not modelled; a raised ValueError is `Failure`. */
module DateGrammar {
  import opened Common
  import opened Text
  import opened Intervals
  import opened Calendar
  import opened DateSelection
  import opened DateNormalisation

  // ---------------------------------------------------------------------- atoms

  /** `YEAR_TOKEN_RE`: 19xx or 2xxx..9xxx. */
  predicate IsYearToken(s: string) {
    |s| == 4 && AllDigits(s) && ((s[0] == '1' && s[1] == '9') || '2' <= s[0])
  }

  /** `_parse_year_atom` over `parse_year_token`. */
  function ParseYear(token: string): Result<int> {
    var s := Strip(token);
    if IsYearToken(s) && IsValidYear(DecimalValue(s)) then Success(DecimalValue(s)) else Failure
  }

  /** `_month_number`. */
  function ParseMonth(token: string): Result<int> {
    if IsDigits(token) && 1 <= DecimalValue(token) <= 12 then Success(DecimalValue(token)) else Failure
  }

  predicate IsQuarterDigit(s: string) {
    |s| == 1 && '1' <= s[0] <= '4'
  }

  function EndOfMonth(year: int, month: int): int
    requires 1 <= month <= 12
  {
    Ordinal(Date(year, month, MonthLength(year, month)))
  }

  /** `_absolute_atom`: the inclusive day interval one term names. */
  function AbsoluteAtom(token: string): Result<(int, int)> {
    var source := Strip(token);
    if source == "" then Failure
    else
      var marker := Find(source, "Q");
      if marker.Some? then
        var year :- ParseYear(source[..marker.value]);
        var quarterText := source[marker.value + 1..];
        if !IsQuarterDigit(quarterText) then Failure
        else
          var quarter := DigitValue(quarterText[0]);
          Success((Ordinal(Date(year, 3 * quarter - 2, 1)), EndOfMonth(year, 3 * quarter)))
      else
        var parts := Split(source, "-");
        if |parts| == 1 then
          var year :- ParseYear(parts[0]);
          Success((Ordinal(Date(year, 1, 1)), Ordinal(Date(year, 12, 31))))
        else if |parts| == 2 then
          var year :- ParseYear(parts[0]);
          var month :- ParseMonth(parts[1]);
          Success((Ordinal(Date(year, month, 1)), EndOfMonth(year, month)))
        else if |parts| == 3 then
          var year :- ParseYear(parts[0]);
          var month :- ParseMonth(parts[1]);
          if !IsDigits(parts[2]) then Failure
          else
            var d := Date(year, month, DecimalValue(parts[2]));
            if ValidDate(d) then Success((Ordinal(d), Ordinal(d))) else Failure
        else Failure
  }

  /** The checks of the two clause constructors. */
  function Checked(c: Clause): Result<Clause> {
    if ValidClause(c) then Success(c) else Failure
  }

  /** `_parse_absolute`. */
  function ParseAbsolute(token: string): Result<Clause> {
    var parts := Split(token, "..");
    if |parts| == 1 then
      var atom :- AbsoluteAtom(parts[0]);
      Checked(Absolute(Interval(Some(atom.0), Some(atom.1))))
    else if |parts| != 2 || (parts[0] == "" && parts[1] == "") then Failure
    else
      var lo :- StartEdge(parts[0]);
      var hi :- EndEdge(parts[1]);
      Checked(Absolute(Interval(lo, hi)))
  }

  function StartEdge(text: string): Result<Option<int>> {
    if text == "" then Success(None)
    else
      var atom :- AbsoluteAtom(text);
      Success(Some(atom.0))
  }

  function EndEdge(text: string): Result<Option<int>> {
    if text == "" then Success(None)
    else
      var atom :- AbsoluteAtom(text);
      Success(Some(atom.1))
  }

  /** `_parse_periods`. */
  function ParsePeriod(text: string): Result<(Granularity, int)> {
    if text == "" then Failure
    else
      var digits := text[1..];
      if text[0] == 'Q' then
        if IsQuarterDigit(digits) then Success((Quarter, DigitValue(digits[0]))) else Failure
      else if text[0] == 'M' then
        if |digits| <= 2 && IsDigits(digits) && 1 <= DecimalValue(digits) <= 12
        then Success((Month, DecimalValue(digits))) else Failure
      else Failure
  }

  function ParseYearBound(text: string): Result<Option<int>> {
    if text == "" then Success(None)
    else
      var year :- ParseYear(text);
      Success(Some(year))
  }

  /** The bracketed year range of `_parse_recurring`. */
  function ParseYears(text: string): Result<Interval> {
    if text == "" then Success(Interval(None, None))
    else
      var bounds := Split(text, "..");
      if |bounds| != 2 then Failure
      else
        var lo :- ParseYearBound(bounds[0]);
        var hi :- ParseYearBound(bounds[1]);
        if lo.None? && hi.None? && Strip(text) != "" then Failure
        else Success(Interval(lo, hi))
  }

  /** `_parse_recurring`, after the `@`. */
  function ParseRecurring(body: string): Result<Clause> {
    var bracket := Find(body, "[");
    match bracket
    case None =>
      if ']' in body then Failure
      else
        var period :- ParsePeriod(body);
        Checked(Recurring(period.0, [period.1], Interval(None, None)))
    case Some(i) =>
      if body[|body| - 1] != ']' then Failure
      else
        var period :- ParsePeriod(body[..i]);
        var years :- ParseYears(body[i + 1..|body| - 1]);
        Checked(Recurring(period.0, [period.1], years))
  }

  /** One comma-separated term, as `parse_date_selection` dispatches it. */
  function ParseTerm(raw: string): Result<Clause> {
    var token := Strip(raw);
    if token == "" then Failure
    else if token[0] == '@' then ParseRecurring(token[1..])
    else ParseAbsolute(token)
  }

  function ParseTerms(terms: seq<string>): Result<seq<Clause>> {
    if terms == [] then Success([])
    else
      var first :- ParseTerm(terms[0]);
      var rest :- ParseTerms(terms[1..]);
      Success([first] + rest)
  }

  /** The clauses a text denotes, before normalisation. */
  function ParseClauses(value: string): Result<seq<Clause>> {
    var text := Strip(value);
    if text == "" then Success([]) else ParseTerms(Split(text, ","))
  }

  lemma ParsedTermValid(term: string)
    requires ParseTerm(term).Success?
    ensures ValidClause(ParseTerm(term).value)
  {
  }

  lemma {:induction false} ParseTermsValid(terms: seq<string>)
    requires ParseTerms(terms).Success?
    ensures |ParseTerms(terms).value| == |terms| && AllValid(ParseTerms(terms).value)
    ensures forall i :: 0 <= i < |terms| ==> ParseTerm(terms[i]) == Success(ParseTerms(terms).value[i])
  {
    if terms == [] {
    } else {
      ParsedTermValid(terms[0]);
      ParseTermsValid(terms[1..]);
    }
  }

  lemma {:induction false} ParseTermsTotal(terms: seq<string>)
    ensures ParseTerms(terms).Success? <==> forall i :: 0 <= i < |terms| ==> ParseTerm(terms[i]).Success?
  {
    if terms == [] {
    } else {
      ParseTermsTotal(terms[1..]);
      if forall i :: 0 <= i < |terms| ==> ParseTerm(terms[i]).Success? {
        forall i | 0 <= i < |terms[1..]| ensures ParseTerm(terms[1..][i]).Success? {
          assert terms[1..][i] == terms[i + 1];
        }
      } else if ParseTerms(terms).Success? {
        ParseTermsValid(terms);
      }
    }
  }

  function TermResults(terms: seq<string>): seq<Result<Clause>> {
    seq(|terms|, i requires 0 <= i < |terms| => ParseTerm(terms[i]))
  }

  /** The term-by-term results decide the whole parse. */
  lemma ParseTermsFromResults(terms: seq<string>, clauses: seq<Clause>)
    requires |clauses| <= |terms|
    requires forall i :: 0 <= i < |clauses| ==> TermResults(terms)[i] == Success(clauses[i])
    ensures |clauses| == |terms| ==> ParseTerms(terms) == Success(clauses)
    ensures |clauses| < |terms| && TermResults(terms)[|clauses|].Failure? ==> ParseTerms(terms).Failure?
  {
    ParseTermsTotal(terms);
    forall i | 0 <= i < |terms| ensures TermResults(terms)[i] == ParseTerm(terms[i]) {
    }
    if |clauses| == |terms| {
      ParseTermsValid(terms);
      assert ParseTerms(terms).value == clauses;
    }
  }

  /** The loop of `parse_date_selection`. */
  method ParseEach(terms: seq<string>) returns (r: Result<seq<Clause>>)
    ensures r == ParseTerms(terms)
  {
    ghost var results := TermResults(terms);
    var clauses: seq<Clause> := [];
    for n := 0 to |terms|
      invariant |clauses| == n
      invariant forall i :: 0 <= i < n ==> results[i] == Success(clauses[i])
    {
      var parsed := ParseTerm(terms[n]);
      assert results[n] == parsed;
      if parsed.Failure? {
        ParseTermsFromResults(terms, clauses);
        return Failure;
      }
      clauses := clauses + [parsed.value];
    }
    ParseTermsFromResults(terms, clauses);
    r := Success(clauses);
  }

  /** `parse_date_selection`: the canonical form of the clauses the text denotes,
      or an error when a term does not parse or no canonical form can be built. */
  method ParseDateSelection(value: string) returns (r: Result<Selection>)
    ensures r.Failure? <==> ParseClauses(value).Failure? || YearEdge(ParseClauses(value).value)
    ensures r.Success? ==> IsNormalForm(ParseClauses(value).value, r.value)
  {
    var text := Strip(value);
    var parsed: Result<seq<Clause>> := Success([]);
    if text != "" {
      parsed := ParseEach(Split(text, ","));
      if parsed.Failure? {
        return Failure;
      }
      ParseTermsValid(Split(text, ","));
    }
    r := NormalizeDateSelection(parsed.value);
  }

  // -------------------------------------------------------------------- printing

  /** `date.isoformat()`: the full-date of RFC 3339, section 5.6. */
  function IsoFormat(n: int): string
    requires 1 <= n <= MAX_ORDINAL
  {
    var d := FromOrdinal(n);
    Padded(d.year, 4) + "-" + (Padded(d.month, 2) + "-" + Padded(d.day, 2))
  }

  function IsoBound(bound: Option<int>): string
    requires IsDay(bound)
  {
    if bound.None? then "" else IsoFormat(bound.value)
  }

  function PeriodText(g: Granularity, v: nat): string {
    if g == Month then "M" + Padded(v, 2) else "Q" + Decimal(v)
  }

  function YearText(bound: Option<int>): string
    requires bound.Some? ==> IsValidYear(bound.value)
  {
    if bound.None? then "" else Decimal(bound.value)
  }

  function SpanText(years: Interval): string
    requires ValidYears(years)
  {
    if years.lo.None? && years.hi.None? then ""
    else "[" + (YearText(years.lo) + ".." + YearText(years.hi)) + "]"
  }

  function PeriodTexts(g: Granularity, values: seq<int>): seq<string>
    requires forall i :: 0 <= i < |values| ==> 1 <= values[i]
  {
    seq(|values|, i requires 0 <= i < |values| => "@" + PeriodText(g, values[i]))
  }

  function FormatClause(c: Clause): string
    requires ValidClause(c)
  {
    match c
    case Absolute(days) => IsoBound(days.lo) + ".." + IsoBound(days.hi)
    case Recurring(g, values, years) => Join(PeriodTexts(g, values), ",") + SpanText(years)
  }

  function FormattedTerms(selection: Selection): seq<string>
    requires AllValid(selection)
  {
    seq(|selection|, i requires 0 <= i < |selection| => FormatClause(selection[i]))
  }

  function FormattedSelection(selection: Selection): string
    requires AllValid(selection)
  {
    Join(FormattedTerms(selection), ",")
  }

  /** `format_date_selection`. */
  method FormatDateSelection(selection: Selection) returns (text: string)
    requires AllValid(selection)
    ensures text == FormattedSelection(selection)
  {
    var terms: seq<string> := [];
    ghost var all := FormattedTerms(selection);
    for n := 0 to |selection|
      invariant terms == all[..n]
    {
      var term := FormatOne(selection[n]);
      assert all[n] == term;
      terms := terms + [term];
    }
    assert terms == all;
    text := Join(terms, ",");
  }

  /** The loop body of `format_date_selection`. */
  method FormatOne(c: Clause) returns (term: string)
    requires ValidClause(c)
    ensures term == FormatClause(c)
  {
    match c {
      case Recurring(g, values, years) =>
        var periods := Join(PeriodTexts(g, values), ",");
        var span := "";
        if years.lo.Some? || years.hi.Some? {
          var low := if years.lo.None? then "" else Decimal(years.lo.value);
          var high := if years.hi.None? then "" else Decimal(years.hi.value);
          span := "[" + (low + ".." + high) + "]";
        }
        term := periods + span;
      case Absolute(days) =>
        var start := if days.lo.Some? then IsoFormat(days.lo.value) else "";
        var end := if days.hi.Some? then IsoFormat(days.hi.value) else "";
        term := start + ".." + end;
    }
  }
}
