/** The language of date terms: exactly which texts are accepted, and which dates each
    one means, said of characters and calendar dates
    (edgar_sec/domain/filing_catalog/filters.py:242-392). */
module DateLanguage {
  import opened Common
  import opened Text
  import opened Intervals
  import opened Calendar
  import opened DateSelection
  import opened DateGrammar
  import opened DateRoundTrip

  // ------------------------------------------------------------------ text lemmas

  /** Joining the split parts gives the text back. */
  lemma {:induction false} JoinSplit(s: string, sep: string)
    requires sep != ""
    ensures Split(s, sep) != [] && Join(Split(s, sep), sep) == s
    decreases |s|
  {
    var i := Find(s, sep);
    if i.Some? {
      JoinSplit(s[i.value + |sep|..], sep);
      var rest := Split(s[i.value + |sep|..], sep);
      assert Split(s, sep)[1..] == rest;
      assert s == s[..i.value] + sep + s[i.value + |sep|..];
    }
  }

  lemma {:induction false} StripLeftChars(s: string, c: char)
    requires c in s
    ensures c in StripLeft(s) || IsSpace(c)
  {
    if IsSpace(s[0]) && c != s[0] {
      assert s == [s[0]] + s[1..];
      StripLeftChars(s[1..], c);
    }
  }

  lemma {:induction false} StripRightChars(s: string, c: char)
    requires c in s
    ensures c in StripRight(s) || IsSpace(c)
  {
    var last := |s| - 1;
    if IsSpace(s[last]) && c != s[last] {
      assert s == s[..last] + [s[last]];
      StripRightChars(s[..last], c);
    }
  }

  /** Stripping loses only spaces. */
  lemma StripChars(s: string, c: char)
    requires c in s && !IsSpace(c)
    ensures c in Strip(s)
  {
    StripLeftChars(s, c);
    StripRightChars(StripLeft(s), c);
  }

  lemma {:induction false} DecimalOfDigits(s: string)
    requires IsDigits(s) && (|s| == 1 || s[0] != '0')
    ensures Decimal(DecimalValue(s)) == s
  {
    var front, last := s[..|s| - 1], s[|s| - 1];
    if |s| == 1 {
      assert front == "";
    } else {
      DecimalOfDigits(front);
      FrontIsPositive(front);
      assert DecimalValue(s) / 10 == DecimalValue(front) && DecimalValue(s) % 10 == DigitValue(last);
      assert s == front + [last];
    }
  }

  lemma {:induction false} FrontIsPositive(s: string)
    requires IsDigits(s) && s[0] != '0'
    ensures DecimalValue(s) >= 1
  {
    if |s| > 1 { FrontIsPositive(s[..|s| - 1]); }
  }

  // -------------------------------------------------------------------------- years

  /** A year in its four digits, spaces around it allowed. */
  predicate YearSpelled(text: string, y: int) {
    MIN_YEAR <= y <= MAX_YEAR && Strip(text) == Decimal(y)
  }

  lemma YearIff(text: string, y: int)
    ensures ParseYear(text) == Success(y) <==> YearSpelled(text, y)
  {
    var s := Strip(text);
    if ParseYear(text).Success? {
      DecimalOfDigits(s);
    }
    if YearSpelled(text, y) {
      ParsePrintedYear(y);
      StripIsStripped(text);
    }
  }

  lemma StripIsStripped(text: string)
    ensures Strip(Strip(text)) == Strip(text)
  {
    StripTrims(text);
    StripTrimmed(Strip(text));
  }

  lemma {:induction false} StripLeftTrims(s: string)
    ensures StripLeft(s) != "" ==> !IsSpace(StripLeft(s)[0])
  {
    if s != "" && IsSpace(s[0]) { StripLeftTrims(s[1..]); }
  }

  lemma {:induction false} StripRightTrims(s: string)
    requires s != "" ==> !IsSpace(s[0])
    ensures Trimmed(StripRight(s))
  {
    if s != "" && IsSpace(s[|s| - 1]) { StripRightTrims(s[..|s| - 1]); }
  }

  lemma StripTrims(s: string)
    ensures Trimmed(Strip(s))
  {
    StripLeftTrims(s);
    StripRightTrims(StripLeft(s));
  }

  /** A spelled year holds digits and spaces only. */
  lemma YearHasNo(text: string, y: int, c: char)
    requires YearSpelled(text, y) && !IsDigit(c) && !IsSpace(c)
    ensures c !in text
  {
    DigitsAreNotMarks(Decimal(y), c);
    if c in text {
      StripChars(text, c);
    }
  }

  // -------------------------------------------------------------------------- atoms

  datatype DateAtom =
    | YearAtom(y: int)
    | QuarterAtom(y: int, quarter: int)
    | MonthAtom(y: int, month: int)
    | DayAtom(date: Date)

  predicate MonthSpelled(text: string, m: int) {
    1 <= m <= 12 && IsDigits(text) && DecimalValue(text) == m
  }

  /** How an atom is written: `Y`, `YQn`, `Y-M` or `Y-M-D`, spaces around the whole and
      around the year allowed. */
  ghost predicate Spells(text: string, atom: DateAtom) {
    var source := Strip(text);
    match atom
    case YearAtom(y) => YearSpelled(source, y)
    case QuarterAtom(y, n) =>
      1 <= n <= 4 && exists year :: YearSpelled(year, y) && source == year + "Q" + Decimal(n)
    case MonthAtom(y, m) =>
      exists year, month :: YearSpelled(year, y) && MonthSpelled(month, m) && source == year + "-" + month
    case DayAtom(d) =>
      && ValidDate(d)
      && exists year, month, day ::
           && YearSpelled(year, d.year) && MonthSpelled(month, d.month)
           && IsDigits(day) && DecimalValue(day) == d.day
           && source == year + "-" + (month + "-" + day)
  }

  /** The dates an atom means. */
  predicate AtomHolds(atom: DateAtom, d: Date) {
    match atom
    case YearAtom(y) => d.year == y
    case QuarterAtom(y, n) => d.year == y && 3 * n - 2 <= d.month <= 3 * n
    case MonthAtom(y, m) => d.year == y && d.month == m
    case DayAtom(date) => d == date
  }

  predicate ValidAtom(atom: DateAtom) {
    match atom
    case YearAtom(y) => IsValidYear(y)
    case QuarterAtom(y, n) => IsValidYear(y) && 1 <= n <= 4
    case MonthAtom(y, m) => IsValidYear(y) && 1 <= m <= 12
    case DayAtom(date) => ValidDate(date)
  }

  function First(atom: DateAtom): Date
    requires ValidAtom(atom)
  {
    match atom
    case YearAtom(y) => Date(y, 1, 1)
    case QuarterAtom(y, n) => Date(y, 3 * n - 2, 1)
    case MonthAtom(y, m) => Date(y, m, 1)
    case DayAtom(date) => date
  }

  function Last(atom: DateAtom): Date
    requires ValidAtom(atom)
  {
    match atom
    case YearAtom(y) => Date(y, 12, 31)
    case QuarterAtom(y, n) => Date(y, 3 * n, MonthLength(y, 3 * n))
    case MonthAtom(y, m) => Date(y, m, MonthLength(y, m))
    case DayAtom(date) => date
  }

  /** An atom's days run from its first to its last, and both are its own. */
  lemma AtomDays(atom: DateAtom, d: Date)
    requires ValidAtom(atom) && ValidDate(d)
    ensures ValidDate(First(atom)) && ValidDate(Last(atom))
    ensures AtomHolds(atom, First(atom)) && AtomHolds(atom, Last(atom))
    ensures AtomHolds(atom, d) <==> Ordinal(First(atom)) <= Ordinal(d) <= Ordinal(Last(atom))
  {
    match atom {
      case YearAtom(y) => MonthSpan(y, 1, 12, d);
      case QuarterAtom(y, n) => MonthSpan(y, 3 * n - 2, 3 * n, d);
      case MonthAtom(y, m) => MonthSpan(y, m, m, d);
      case DayAtom(date) => OrdinalOrder(date, d); OrdinalOrder(d, date);
    }
  }

  lemma SplitTwo(a: string, b: string, sep: string)
    requires sep != "" && sep[0] !in a && sep[0] !in b
    ensures Split(a + sep + b, sep) == [a, b]
  {
    SplitAtSeparator(a, sep, b);
    SplitWhole(b, sep);
  }

  lemma SplitThree(a: string, b: string, c: string, sep: string)
    requires sep != "" && sep[0] !in a && sep[0] !in b && sep[0] !in c
    ensures Split(a + sep + (b + sep + c), sep) == [a, b, c]
  {
    SplitAtSeparator(a, sep, b + sep + c);
    SplitTwo(b, c, sep);
  }

  lemma NoMarker(s: string)
    requires 'Q' !in s
    ensures Find(s, "Q").None?
  {
    FindNothing(s, "Q");
  }

  lemma YearAccepted(text: string, y: int)
    requires Spells(text, YearAtom(y))
    ensures AbsoluteAtom(text) == Success((Ordinal(Date(y, 1, 1)), Ordinal(Date(y, 12, 31))))
  {
    var source := Strip(text);
    YearHasNo(source, y, 'Q');
    YearHasNo(source, y, '-');
    NoMarker(source);
    SplitWhole(source, "-");
    YearIff(source, y);
  }

  lemma QuarterDigit(n: int)
    requires 1 <= n <= 4
    ensures IsQuarterDigit(Decimal(n)) && DigitValue(Decimal(n)[0]) == n
  {}

  lemma QuarterAccepted(text: string, y: int, n: int)
    requires Spells(text, QuarterAtom(y, n))
    ensures AbsoluteAtom(text) == Success((Ordinal(Date(y, 3 * n - 2, 1)), EndOfMonth(y, 3 * n)))
  {
    var source := Strip(text);
    var year :| YearSpelled(year, y) && source == year + "Q" + Decimal(n);
    YearHasNo(year, y, 'Q');
    FindFirstSeparator(year, "Q", Decimal(n));
    assert source[..|year|] == year && source[|year| + 1..] == Decimal(n);
    YearIff(year, y);
    QuarterDigit(n);
  }

  lemma MonthAccepted(text: string, y: int, m: int)
    requires Spells(text, MonthAtom(y, m))
    ensures AbsoluteAtom(text) == Success((Ordinal(Date(y, m, 1)), EndOfMonth(y, m)))
  {
    var source := Strip(text);
    var year, month :| YearSpelled(year, y) && MonthSpelled(month, m) && source == year + "-" + month;
    YearHasNo(year, y, 'Q');
    YearHasNo(year, y, '-');
    DigitsAreNotMarks(month, 'Q');
    DigitsAreNotMarks(month, '-');
    NoMarker(source);
    SplitTwo(year, month, "-");
    YearIff(year, y);
  }

  lemma DayParts(year: string, month: string, day: string, y: int)
    requires YearSpelled(year, y) && IsDigits(month) && IsDigits(day)
    ensures var source := year + "-" + (month + "-" + day);
            Find(source, "Q").None? && Split(source, "-") == [year, month, day]
  {
    YearHasNo(year, y, 'Q');
    YearHasNo(year, y, '-');
    DigitsAreNotMarks(month, 'Q');
    DigitsAreNotMarks(month, '-');
    DigitsAreNotMarks(day, 'Q');
    DigitsAreNotMarks(day, '-');
    NoMarker(year + "-" + (month + "-" + day));
    SplitThree(year, month, day, "-");
  }

  lemma DayRead(text: string, year: string, month: string, day: string, d: Date)
    requires Strip(text) != "" && Find(Strip(text), "Q").None? && Split(Strip(text), "-") == [year, month, day]
    requires ParseYear(year) == Success(d.year) && MonthSpelled(month, d.month)
    requires IsDigits(day) && DecimalValue(day) == d.day && ValidDate(d)
    ensures AbsoluteAtom(text) == Success((Ordinal(d), Ordinal(d)))
  {
    assert d == Date(d.year, d.month, d.day);
  }

  lemma DayAccepted(text: string, d: Date)
    requires Spells(text, DayAtom(d))
    ensures AbsoluteAtom(text) == Success((Ordinal(d), Ordinal(d)))
  {
    var year, month, day :|
      && YearSpelled(year, d.year) && MonthSpelled(month, d.month)
      && IsDigits(day) && DecimalValue(day) == d.day && Strip(text) == year + "-" + (month + "-" + day);
    DayParts(year, month, day, d.year);
    YearIff(year, d.year);
    DayRead(text, year, month, day, d);
  }

  lemma SpelledIsValid(text: string, atom: DateAtom)
    requires Spells(text, atom)
    ensures ValidAtom(atom)
  {}

  /** A spelled atom is accepted, with its first and last day. */
  lemma AtomAccepted(text: string, atom: DateAtom)
    requires Spells(text, atom)
    ensures ValidAtom(atom) && AbsoluteAtom(text) == Success((Ordinal(First(atom)), Ordinal(Last(atom))))
  {
    match atom {
      case YearAtom(y) => YearAccepted(text, y);
      case QuarterAtom(y, n) => QuarterAccepted(text, y, n);
      case MonthAtom(y, m) => MonthAccepted(text, y, m);
      case DayAtom(d) => DayAccepted(text, d);
    }
  }

  lemma QuarterSpelled(text: string) returns (atom: DateAtom)
    requires AbsoluteAtom(text).Success? && Find(Strip(text), "Q").Some?
    ensures Spells(text, atom)
  {
    var source := Strip(text);
    var i := Find(source, "Q").value;
    var year, quarter := source[..i], source[i + 1..];
    var y, n := ParseYear(year).value, DigitValue(quarter[0]);
    YearIff(year, y);
    QuarterDigit(n);
    assert quarter == [quarter[0]] && Decimal(n) == quarter;
    assert source == year + "Q" + quarter;
    atom := QuarterAtom(y, n);
  }

  lemma DashSpelled(text: string) returns (atom: DateAtom)
    requires AbsoluteAtom(text).Success? && Find(Strip(text), "Q").None?
    ensures Spells(text, atom)
  {
    var source := Strip(text);
    var parts := Split(source, "-");
    JoinSplit(source, "-");
    var y := ParseYear(parts[0]).value;
    YearIff(parts[0], y);
    if |parts| == 1 {
      atom := YearAtom(y);
    } else if |parts| == 2 {
      assert Join(parts[1..], "-") == parts[1];
      assert source == parts[0] + "-" + parts[1];
      assert MonthSpelled(parts[1], DecimalValue(parts[1]));
      atom := MonthAtom(y, DecimalValue(parts[1]));
    } else {
      assert parts[1..][1..] == [parts[2]];
      assert Join(parts[1..], "-") == parts[1] + "-" + parts[2];
      assert source == parts[0] + "-" + (parts[1] + "-" + parts[2]);
      assert MonthSpelled(parts[1], DecimalValue(parts[1]));
      atom := DayAtom(Date(y, DecimalValue(parts[1]), DecimalValue(parts[2])));
    }
  }

  /** Whatever is accepted as an atom spells one. */
  lemma AtomSpelled(text: string) returns (atom: DateAtom)
    requires AbsoluteAtom(text).Success?
    ensures Spells(text, atom)
  {
    if Find(Strip(text), "Q").Some? {
      atom := QuarterSpelled(text);
    } else {
      atom := DashSpelled(text);
    }
  }

  // -------------------------------------------------------------- absolute terms

  /** A range of two atoms, either of which may be missing, not both. */
  ghost predicate RangeSpelled(token: string, left: Option<DateAtom>, right: Option<DateAtom>) {
    && (left.Some? || right.Some?)
    && exists a, b ::
         && token == a + ".." + b && SideSpelled(a, left) && SideSpelled(b, right)
  }

  ghost predicate SideSpelled(text: string, side: Option<DateAtom>) {
    match side
    case None => text == ""
    case Some(atom) => text != "" && Spells(text, atom)
  }

  /** From the first day of the left atom to the last of the right one. */
  ghost predicate RangeHolds(left: Option<DateAtom>, right: Option<DateAtom>, d: Date) {
    && (left.Some? ==> exists e :: ValidDate(e) && AtomHolds(left.value, e) && !Before(d, e))
    && (right.Some? ==> exists e :: ValidDate(e) && AtomHolds(right.value, e) && !Before(e, d))
  }

  /** Some day of the right atom is no earlier than some day of the left one. */
  ghost predicate InOrder(left: Option<DateAtom>, right: Option<DateAtom>) {
    left.Some? && right.Some? ==>
      exists d, e :: && ValidDate(d) && ValidDate(e) && AtomHolds(left.value, d) && AtomHolds(right.value, e)
                     && !Before(e, d)
  }

  lemma SpelledChars(text: string, atom: DateAtom, c: char)
    requires Spells(text, atom) && !IsDigit(c) && !IsSpace(c) && c != 'Q' && c != '-'
    ensures c !in Strip(text)
  {
    match atom {
      case YearAtom(y) => YearHasNo(Strip(text), y, c);
      case QuarterAtom(y, n) =>
        var year :| YearSpelled(year, y) && Strip(text) == year + "Q" + Decimal(n);
        YearHasNo(year, y, c);
        DigitsAreNotMarks(Decimal(n), c);
      case MonthAtom(y, m) =>
        var year, month :| YearSpelled(year, y) && MonthSpelled(month, m) && Strip(text) == year + "-" + month;
        YearHasNo(year, y, c);
        DigitsAreNotMarks(month, c);
      case DayAtom(d) =>
        var year, month, day :|
          && YearSpelled(year, d.year) && MonthSpelled(month, d.month)
          && IsDigits(day) && DecimalValue(day) == d.day && Strip(text) == year + "-" + (month + "-" + day);
        YearHasNo(year, d.year, c);
        DigitsAreNotMarks(month, c);
        DigitsAreNotMarks(day, c);
    }
  }

  /** An atom's text holds no other mark. */
  lemma SpelledHasNo(text: string, atom: DateAtom, c: char)
    requires Spells(text, atom) && !IsDigit(c) && !IsSpace(c) && c != 'Q' && c != '-'
    ensures c !in text
  {
    SpelledChars(text, atom, c);
    if c in text { StripChars(text, c); }
  }

  lemma SideHasNoDot(text: string, side: Option<DateAtom>)
    requires SideSpelled(text, side)
    ensures '.' !in text
  {
    if side.Some? { SpelledHasNo(text, side.value, '.'); }
  }

  lemma StartEdgeOf(text: string, side: Option<DateAtom>)
    requires SideSpelled(text, side)
    ensures side.Some? ==> ValidAtom(side.value)
    ensures StartEdge(text) == Success(if side.None? then None else Some(Ordinal(First(side.value))))
    ensures EndEdge(text) == Success(if side.None? then None else Some(Ordinal(Last(side.value))))
  {
    if side.Some? { AtomAccepted(text, side.value); }
  }

  lemma FirstNotAfter(atom: DateAtom, d: Date)
    requires ValidAtom(atom) && ValidDate(d)
    ensures Ordinal(First(atom)) <= Ordinal(d) <==> exists e :: ValidDate(e) && AtomHolds(atom, e) && !Before(d, e)
  {
    AtomDays(atom, d);
    if Ordinal(First(atom)) <= Ordinal(d) {
      OrdinalOrder(d, First(atom));
    }
    if e :| ValidDate(e) && AtomHolds(atom, e) && !Before(d, e) {
      AtomDays(atom, e);
      OrdinalOrder(d, e);
    }
  }

  lemma LastNotBefore(atom: DateAtom, d: Date)
    requires ValidAtom(atom) && ValidDate(d)
    ensures Ordinal(d) <= Ordinal(Last(atom)) <==> exists e :: ValidDate(e) && AtomHolds(atom, e) && !Before(e, d)
  {
    AtomDays(atom, d);
    if Ordinal(d) <= Ordinal(Last(atom)) {
      OrdinalOrder(Last(atom), d);
    }
    if e :| ValidDate(e) && AtomHolds(atom, e) && !Before(e, d) {
      AtomDays(atom, e);
      OrdinalOrder(e, d);
    }
  }

  function RangeDays(left: Option<DateAtom>, right: Option<DateAtom>): Interval
    requires (left.Some? ==> ValidAtom(left.value)) && (right.Some? ==> ValidAtom(right.value))
  {
    Interval(if left.None? then None else Some(Ordinal(First(left.value))),
             if right.None? then None else Some(Ordinal(Last(right.value))))
  }

  lemma RangeDaysMean(left: Option<DateAtom>, right: Option<DateAtom>, d: Date)
    requires (left.Some? ==> ValidAtom(left.value)) && (right.Some? ==> ValidAtom(right.value)) && ValidDate(d)
    ensures Covers(RangeDays(left, right), Ordinal(d)) <==> RangeHolds(left, right, d)
  {
    if left.Some? { FirstNotAfter(left.value, d); }
    if right.Some? { LastNotBefore(right.value, d); }
  }

  lemma RangeOrdered(left: Option<DateAtom>, right: Option<DateAtom>)
    requires (left.Some? ==> ValidAtom(left.value)) && (right.Some? ==> ValidAtom(right.value))
    ensures Ordered(RangeDays(left, right)) <==> InOrder(left, right)
  {
    if left.Some? && right.Some? {
      var a, b := left.value, right.value;
      var f, l := First(a), Last(b);
      AtomDays(a, Date(2000, 1, 1));
      AtomDays(b, Date(2000, 1, 1));
      OrdinalOrder(l, f);
      if d, e :| ValidDate(d) && ValidDate(e) && AtomHolds(a, d) && AtomHolds(b, e) && !Before(e, d) {
        AtomDays(a, d);
        AtomDays(b, e);
        OrdinalOrder(e, d);
      }
    }
  }

  lemma RangeClauseValid(left: Option<DateAtom>, right: Option<DateAtom>)
    requires (left.Some? ==> ValidAtom(left.value)) && (right.Some? ==> ValidAtom(right.value))
    ensures ValidClause(Absolute(RangeDays(left, right))) <==> InOrder(left, right)
  {
    RangeOrdered(left, right);
    if left.Some? {
      AtomDays(left.value, Date(2000, 1, 1));
      OrdinalRange(First(left.value));
    }
    if right.Some? {
      AtomDays(right.value, Date(2000, 1, 1));
      OrdinalRange(Last(right.value));
    }
  }

  lemma TwoSidesRead(token: string, a: string, b: string, days: Interval)
    requires Split(token, "..") == [a, b] && (a != "" || b != "")
    requires StartEdge(a) == Success(days.lo) && EndEdge(b) == Success(days.hi)
    ensures ParseAbsolute(token) == Checked(Absolute(days))
  {}

  /** A spelled range is read as its days, if they are in order. */
  lemma RangeAccepted(token: string, left: Option<DateAtom>, right: Option<DateAtom>)
    requires RangeSpelled(token, left, right)
    ensures (left.Some? ==> ValidAtom(left.value)) && (right.Some? ==> ValidAtom(right.value))
    ensures ParseAbsolute(token) == if InOrder(left, right) then Success(Absolute(RangeDays(left, right))) else Failure
  {
    var a, b :| token == a + ".." + b && SideSpelled(a, left) && SideSpelled(b, right);
    SideHasNoDot(a, left);
    SideHasNoDot(b, right);
    SplitTwo(a, b, "..");
    StartEdgeOf(a, left);
    StartEdgeOf(b, right);
    TwoSidesRead(token, a, b, RangeDays(left, right));
    RangeClauseValid(left, right);
  }

  lemma SideOf(text: string) returns (side: Option<DateAtom>)
    requires StartEdge(text).Success? || EndEdge(text).Success?
    ensures SideSpelled(text, side)
  {
    if text == "" {
      side := None;
    } else {
      var atom := AtomSpelled(text);
      side := Some(atom);
    }
  }

  /** One atom is a range from itself to itself. */
  lemma AtomTermAccepted(token: string, atom: DateAtom)
    requires Spells(token, atom)
    ensures ValidAtom(atom) && ParseAbsolute(token) == Success(Absolute(RangeDays(Some(atom), Some(atom))))
  {
    SpelledHasNo(token, atom, '.');
    SplitWhole(token, "..");
    AtomAccepted(token, atom);
    AtomDays(atom, Date(2000, 1, 1));
    OrdinalRange(First(atom));
    OrdinalRange(Last(atom));
    AtomDays(atom, First(atom));
  }

  lemma AtomRangeHolds(atom: DateAtom, d: Date)
    requires ValidAtom(atom) && ValidDate(d)
    ensures Covers(RangeDays(Some(atom), Some(atom)), Ordinal(d)) <==> AtomHolds(atom, d)
  {
    AtomDays(atom, d);
  }

  datatype AbsoluteTerm = One(atom: DateAtom) | Between(left: Option<DateAtom>, right: Option<DateAtom>)

  ghost predicate AbsoluteSpelled(token: string, t: AbsoluteTerm) {
    match t
    case One(atom) => Spells(token, atom)
    case Between(left, right) => RangeSpelled(token, left, right) && InOrder(left, right)
  }

  ghost predicate AbsoluteHolds(t: AbsoluteTerm, d: Date) {
    match t
    case One(atom) => AtomHolds(atom, d)
    case Between(left, right) => RangeHolds(left, right, d)
  }

  /** A spelled absolute term is accepted and matches exactly the dates it means. */
  lemma AbsoluteAccepted(token: string, t: AbsoluteTerm, d: Date)
    requires AbsoluteSpelled(token, t) && ValidDate(d)
    ensures ParseAbsolute(token).Success? && (ClauseMatches(ParseAbsolute(token).value, d) <==> AbsoluteHolds(t, d))
  {
    match t {
      case One(atom) =>
        AtomTermAccepted(token, atom);
        AtomRangeHolds(atom, d);
      case Between(left, right) =>
        RangeAccepted(token, left, right);
        RangeDaysMean(left, right, d);
    }
  }

  /** Whatever is accepted spells an absolute term. */
  lemma AbsoluteIsSpelled(token: string) returns (t: AbsoluteTerm)
    requires ParseAbsolute(token).Success?
    ensures AbsoluteSpelled(token, t)
  {
    var parts := Split(token, "..");
    JoinSplit(token, "..");
    if |parts| == 1 {
      var atom := AtomSpelled(parts[0]);
      t := One(atom);
    } else {
      assert Join(parts[1..], "..") == parts[1];
      assert token == parts[0] + ".." + parts[1];
      var left := SideOf(parts[0]);
      var right := SideOf(parts[1]);
      assert RangeSpelled(token, left, right);
      RangeAccepted(token, left, right);
      t := Between(left, right);
    }
  }
}
