/** The persisted form of a date selection and its round trip
    (edgar_sec/domain/filing_catalog/filters.py:72-77, 123-130, 605-660). */
module DateJson {
  import opened Common
  import opened Sorting
  import opened Text
  import opened Intervals
  import opened Calendar
  import opened DateSelection
  import opened DateNormalisation
  import opened DateGrammar
  import opened DateRoundTrip
  import opened DateTheorems

  datatype Json =
    | JNull
    | JBool(b: bool)
    | JInt(n: int)
    | JString(s: string)
    | JList(items: seq<Json>)
    | JObject(fields: map<string, Json>)

  /** `entry.get(key)`. */
  function Get(fields: map<string, Json>, key: string): Json {
    if key in fields then fields[key] else JNull
  }

  // -------------------------------------------------------------------- writing

  function DateJson(bound: Option<int>): Json
    requires IsDay(bound)
  {
    if bound.None? then JNull else JString(IsoFormat(bound.value))
  }

  function YearJson(bound: Option<int>): Json {
    if bound.None? then JNull else JInt(bound.value)
  }

  function IntsJson(values: seq<int>): seq<Json> {
    seq(|values|, i requires 0 <= i < |values| => JInt(values[i]))
  }

  function GranularityName(g: Granularity): string {
    if g == Month then "month" else "quarter"
  }

  /** The clauses' `to_json`. */
  function ClauseToJson(c: Clause): Json
    requires ValidClause(c)
  {
    match c
    case Absolute(days) => JObject(map[
      "kind" := JString("absolute"),
      "start_date" := DateJson(days.lo),
      "end_date" := DateJson(days.hi)])
    case Recurring(g, values, years) => JObject(map[
      "kind" := JString("recurring"),
      "granularity" := JString(GranularityName(g)),
      "values" := JList(IntsJson(values)),
      "start_year" := YearJson(years.lo),
      "end_year" := YearJson(years.hi)])
  }

  /** `date_selection_to_json`. */
  function SelectionToJson(selection: Selection): seq<Json>
    requires AllValid(selection)
  {
    seq(|selection|, i requires 0 <= i < |selection| => ClauseToJson(selection[i]))
  }

  // -------------------------------------------------------------------- reading

  /** `date.fromisoformat` on the full-date form `YYYY-MM-DD`. */
  function FromIso(s: string): Result<int> {
    if |s| != 10 || s[4] != '-' || s[7] != '-' || !AllDigits(s[..4]) || !AllDigits(s[5..7]) || !AllDigits(s[8..])
        then Failure
    else
      var d := Date(DecimalValue(s[..4]), DecimalValue(s[5..7]), DecimalValue(s[8..]));
      if ValidDate(d) then Success(Ordinal(d)) else Failure
  }

  /** `_json_date`. */
  function ReadDate(v: Json): Result<Option<int>> {
    match v
    case JNull => Success(None)
    case JString(s) =>
      var day :- FromIso(s);
      Success(Some(day))
    case _ => Failure
  }

  /** `_json_year`. */
  function ReadYear(v: Json): Result<Option<int>> {
    match v
    case JNull => Success(None)
    case JInt(n) => Success(Some(n))
    case _ => Failure
  }

  function ReadInts(items: seq<Json>): Result<seq<int>> {
    if items == [] then Success([])
    else if !items[0].JInt? then Failure
    else
      var rest :- ReadInts(items[1..]);
      Success([items[0].n] + rest)
  }

  function ReadGranularity(v: Json): Result<Granularity> {
    if v == JString("month") then Success(Month)
    else if v == JString("quarter") then Success(Quarter)
    else Failure
  }

  /** One entry of `date_selection_from_json`; values are sorted and deduplicated. */
  function ReadClause(entry: Json): Result<Clause> {
    if !entry.JObject? then Failure
    else
      var fields := entry.fields;
      if Get(fields, "kind") == JString("absolute") then
        var lo :- ReadDate(Get(fields, "start_date"));
        var hi :- ReadDate(Get(fields, "end_date"));
        Checked(Absolute(Interval(lo, hi)))
      else if Get(fields, "kind") == JString("recurring") then
        if !Get(fields, "values").JList? then Failure
        else
          var values :- ReadInts(Get(fields, "values").items);
          var g :- ReadGranularity(Get(fields, "granularity"));
          var lo :- ReadYear(Get(fields, "start_year"));
          var hi :- ReadYear(Get(fields, "end_year"));
          Checked(Recurring(g, Ascending(set v | v in values), Interval(lo, hi)))
      else Failure
  }

  function ReadClauses(payload: seq<Json>): Result<seq<Clause>> {
    if payload == [] then Success([])
    else
      var first :- ReadClause(payload[0]);
      var rest :- ReadClauses(payload[1..]);
      Success([first] + rest)
  }

  lemma {:induction false} ReadClausesValid(payload: seq<Json>)
    requires ReadClauses(payload).Success?
    ensures |ReadClauses(payload).value| == |payload| && AllValid(ReadClauses(payload).value)
    ensures forall i :: 0 <= i < |payload| ==> ReadClause(payload[i]) == Success(ReadClauses(payload).value[i])
  {
    if payload != [] {
      ReadClausesValid(payload[1..]);
    }
  }

  lemma {:induction false} ReadClausesTotal(payload: seq<Json>)
    requires forall i :: 0 <= i < |payload| ==> ReadClause(payload[i]).Success?
    ensures ReadClauses(payload).Success?
  {
    if payload != [] {
      ReadClausesTotal(payload[1..]);
    }
  }

  /** `date_selection_from_json`: the canonical form of the clauses listed. */
  method SelectionFromJson(payload: seq<Json>) returns (r: Result<Selection>)
    ensures r.Failure? <==> ReadClauses(payload).Failure? || YearEdge(ReadClauses(payload).value)
    ensures r.Success? ==> IsNormalForm(ReadClauses(payload).value, r.value)
  {
    var clauses: seq<Clause> := [];
    for n := 0 to |payload|
      invariant |clauses| == n
      invariant forall i :: 0 <= i < n ==> ReadClause(payload[i]) == Success(clauses[i])
    {
      var clause := ReadClause(payload[n]);
      if clause.Failure? {
        if ReadClauses(payload).Success? {
          ReadClausesValid(payload);
        }
        return Failure;
      }
      clauses := clauses + [clause.value];
    }
    ReadClausesTotal(payload);
    ReadClausesValid(payload);
    assert clauses == ReadClauses(payload).value;
    r := NormalizeDateSelection(clauses);
  }

  // ----------------------------------------------------------------- round trip

  lemma ReadWrittenDay(n: int)
    requires 1 <= n <= MAX_ORDINAL
    ensures FromIso(IsoFormat(n)) == Success(n)
  {
    var d := FromOrdinal(n);
    IsoLengths(d);
    SliceIso(Padded(d.year, 4), Padded(d.month, 2), Padded(d.day, 2));
  }

  lemma SliceIso(year: string, month: string, day: string)
    requires |year| == 4 && |month| == 2 && |day| == 2
    ensures var s := year + "-" + (month + "-" + day);
            |s| == 10 && s[4] == '-' && s[7] == '-' && s[..4] == year && s[5..7] == month && s[8..] == day
  {
  }

  lemma {:induction false} ReadWrittenInts(values: seq<int>)
    ensures ReadInts(IntsJson(values)) == Success(values)
  {
    if values != [] {
      ReadWrittenInts(values[1..]);
      assert IntsJson(values)[1..] == IntsJson(values[1..]);
      assert [values[0]] + values[1..] == values;
    }
  }

  lemma ReadWrittenDate(bound: Option<int>)
    requires IsDay(bound)
    ensures ReadDate(DateJson(bound)) == Success(bound)
  {
    if bound.Some? { ReadWrittenDay(bound.value); }
  }

  lemma ReadWrittenAbsolute(c: Clause)
    requires ValidClause(c) && c.Absolute?
    ensures ReadClause(ClauseToJson(c)) == Success(c)
  {
    ReadWrittenDate(c.days.lo);
    ReadWrittenDate(c.days.hi);
    var fields := ClauseToJson(c).fields;
    assert Get(fields, "kind") == JString("absolute");
    assert Get(fields, "start_date") == DateJson(c.days.lo);
    assert Get(fields, "end_date") == DateJson(c.days.hi);
  }

  lemma WrittenFields(c: Clause, fields: map<string, Json>)
    requires ValidClause(c) && c.Recurring? && ClauseToJson(c) == JObject(fields)
    ensures Get(fields, "kind") == JString("recurring")
    ensures Get(fields, "granularity") == JString(GranularityName(c.granularity))
    ensures Get(fields, "values") == JList(IntsJson(c.values))
    ensures Get(fields, "start_year") == YearJson(c.years.lo)
    ensures Get(fields, "end_year") == YearJson(c.years.hi)
  {}

  lemma ReadWrittenYear(bound: Option<int>)
    ensures ReadYear(YearJson(bound)) == Success(bound)
  {}

  lemma ReadWrittenRecurring(c: Clause)
    requires ValidClause(c) && c.Recurring? && StrictlyAscending(c.values)
    ensures ReadClause(ClauseToJson(c)) == Success(c)
  {
    WrittenFields(c, ClauseToJson(c).fields);
    ReadWrittenInts(c.values);
    ReadWrittenYear(c.years.lo);
    ReadWrittenYear(c.years.hi);
    AscendingUnique(Ascending(set v | v in c.values), c.values);
    assert c == Recurring(c.granularity, c.values, Interval(c.years.lo, c.years.hi));
  }

  lemma CanonicalTagsAscend(selection: Selection, i: nat)
    requires CanonicalSelection(selection) && i < |selection| && selection[i].Recurring?
    ensures StrictlyAscending(selection[i].values)
  {
    var p :| CanonicalParts(p) && selection == Assemble(p);
    var g := selection[i].granularity;
    var k := i - |p.absolute| - if g == Month then 0 else |p.months|;
    assert CanonicalTags(p.Runs(Month)) && CanonicalTags(p.Runs(Quarter));
    assert selection[i] == Recurring(g, p.Runs(g)[k].tag, p.Runs(g)[k].span);
  }

  /** Round trip: persisting a canonical selection and reading it back gives it
      exactly, every canonical selection included. */
  lemma JsonRoundTrip(selection: Selection, reread: Selection)
    requires CanonicalSelection(selection)
    ensures ReadClauses(SelectionToJson(selection)).Success?
    ensures var clauses := ReadClauses(SelectionToJson(selection)).value;
            !YearEdge(clauses) && (IsNormalForm(clauses, reread) <==> reread == selection)
  {
    var payload := SelectionToJson(selection);
    forall i | 0 <= i < |selection| ensures ReadClause(payload[i]) == Success(selection[i]) {
      assert ValidClause(selection[i]);
      if selection[i].Absolute? {
        ReadWrittenAbsolute(selection[i]);
      } else {
        CanonicalTagsAscend(selection, i);
        ReadWrittenRecurring(selection[i]);
      }
    }
    ReadClausesTotal(payload);
    ReadClausesValid(payload);
    assert ReadClauses(payload).value == selection;
    CanonicalHasNoEdge(selection);
    NormalFormIdempotent(selection, reread);
  }

  // ------------------------------------------------------------ entries by their keys

  /** The field is null or missing. */
  predicate Absent(fields: map<string, Json>, key: string) {
    key !in fields || fields[key] == JNull
  }

  /** The field holds the date in ten characters, or nothing for an open end. */
  predicate HoldsDate(fields: map<string, Json>, key: string, bound: Option<Date>) {
    match bound
    case None => Absent(fields, key)
    case Some(d) => ValidDate(d) && key in fields && fields[key] == JString(IsoFormat(OrdinalOf(d)))
  }

  function OrdinalOf(d: Date): (n: int)
    requires ValidDate(d)
    ensures 1 <= n <= MAX_ORDINAL && n == Ordinal(d)
  {
    OrdinalRange(d);
    Ordinal(d)
  }

  /** A date is written as four digits, two and two, with hyphens between. */
  lemma WrittenDay(d: Date)
    requires ValidDate(d)
    ensures var s := IsoFormat(OrdinalOf(d));
            && |s| == 10 && s[4] == '-' && s[7] == '-'
            && AllDigits(s[..4]) && AllDigits(s[5..7]) && AllDigits(s[8..])
            && DecimalValue(s[..4]) == d.year && DecimalValue(s[5..7]) == d.month && DecimalValue(s[8..]) == d.day
  {
    FromOrdinalOfDate(d);
    IsoLengths(d);
    SliceIso(Padded(d.year, 4), Padded(d.month, 2), Padded(d.day, 2));
  }

  function DayOf(bound: Option<Date>): Option<int>
    requires bound.Some? ==> ValidDate(bound.value)
  {
    match bound
    case None => None
    case Some(d) => Some(Ordinal(d))
  }

  lemma HeldDate(fields: map<string, Json>, key: string, bound: Option<Date>)
    requires HoldsDate(fields, key, bound)
    ensures ReadDate(Get(fields, key)) == Success(DayOf(bound))
  {
    if bound.Some? { ReadWrittenDay(OrdinalOf(bound.value)); }
  }

  lemma DaysValid(start: Option<Date>, end: Option<Date>)
    requires (start.Some? ==> ValidDate(start.value)) && (end.Some? ==> ValidDate(end.value))
    ensures ValidClause(Absolute(Interval(DayOf(start), DayOf(end)))) <==>
              !(start.Some? && end.Some? && Before(end.value, start.value))
  {
    if start.Some? { OrdinalRange(start.value); }
    if end.Some? { OrdinalRange(end.value); }
    if start.Some? && end.Some? { OrdinalOrder(end.value, start.value); }
  }

  /** An absolute entry: its two dates, either missing or null for an open end. */
  lemma AbsoluteEntry(fields: map<string, Json>, start: Option<Date>, end: Option<Date>)
    requires "kind" in fields && fields["kind"] == JString("absolute")
    requires HoldsDate(fields, "start_date", start) && HoldsDate(fields, "end_date", end)
    ensures ReadClause(JObject(fields)) ==
            if start.Some? && end.Some? && Before(end.value, start.value) then Failure
            else Success(Absolute(Interval(DayOf(start), DayOf(end))))
  {
    HeldDate(fields, "start_date", start);
    HeldDate(fields, "end_date", end);
    DaysValid(start, end);
    ReadDates(fields, DayOf(start), DayOf(end));
  }

  lemma ReadDates(fields: map<string, Json>, lo: Option<int>, hi: Option<int>)
    requires Get(fields, "kind") == JString("absolute")
    requires ReadDate(Get(fields, "start_date")) == Success(lo) && ReadDate(Get(fields, "end_date")) == Success(hi)
    ensures ReadClause(JObject(fields)) == Checked(Absolute(Interval(lo, hi)))
  {}

  predicate HoldsYear(fields: map<string, Json>, key: string, bound: Option<int>) {
    match bound
    case None => Absent(fields, key)
    case Some(y) => key in fields && fields[key] == JInt(y)
  }

  lemma {:induction false} ReadNumbers(items: seq<Json>, values: seq<int>)
    requires |items| == |values| && forall i :: 0 <= i < |items| ==> items[i] == JInt(values[i])
    ensures ReadInts(items) == Success(values)
  {
    if items != [] {
      ReadNumbers(items[1..], values[1..]);
      assert values == [values[0]] + values[1..];
    }
  }

  /** A recurring entry: its values sorted and once each, its years missing or null where
      open. */
  lemma RecurringEntry(fields: map<string, Json>, name: string, g: Granularity, items: seq<Json>, values: seq<int>,
                       sorted: seq<int>, first: Option<int>, last: Option<int>)
    requires "kind" in fields && fields["kind"] == JString("recurring")
    requires "granularity" in fields && fields["granularity"] == JString(name)
    requires (g == Month && name == "month") || (g == Quarter && name == "quarter")
    requires "values" in fields && fields["values"] == JList(items) && |items| == |values|
    requires forall i :: 0 <= i < |items| ==> items[i] == JInt(values[i])
    requires StrictlyAscending(sorted) && forall v :: v in sorted <==> v in values
    requires HoldsYear(fields, "start_year", first) && HoldsYear(fields, "end_year", last)
    ensures var c := Recurring(g, sorted, Interval(first, last));
            ReadClause(JObject(fields)) == if ValidClause(c) then Success(c) else Failure
  {
    ReadNumbers(items, values);
    AscendingUnique(Ascending(set v | v in values), sorted);
  }

  /** An entry of another kind, or no object at all, is refused. */
  lemma OtherKind(entry: Json)
    requires entry.JObject? && "kind" in entry.fields ==>
               entry.fields["kind"] != JString("absolute") && entry.fields["kind"] != JString("recurring")
    ensures ReadClause(entry).Failure?
  {}
}
