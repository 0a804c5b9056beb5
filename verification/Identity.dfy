/** CIKs and accession numbers (edgar_sec/domain/identity.py). */
module Identity {
  import opened Common
  import opened Text

  const MAX_CIK: nat := 9_999_999_999

  // ---------------------------------------------------------------------- integers

  /** Digits, with single underscores between them. */
  predicate IsGroupedDigits(s: string) {
    s != "" && forall i :: 0 <= i < |s| ==>
      IsDigit(s[i]) || (s[i] == '_' && 0 < i < |s| - 1 && IsDigit(s[i - 1]) && IsDigit(s[i + 1]))
  }

  /** `s.replace(c, "")`. */
  function Without(s: string, c: char): string {
    if s == "" then "" else (if s[0] == c then "" else [s[0]]) + Without(s[1..], c)
  }

  lemma {:induction false} WithoutNothing(s: string, c: char)
    requires c !in s
    ensures Without(s, c) == s
  {
    if s != "" { WithoutNothing(s[1..], c); }
  }

  /** `int(s)`: surrounding space, a sign, grouped digits. */
  function IntOf(s: string): Option<int> {
    var t := Strip(s);
    var body := if t != "" && (t[0] == '+' || t[0] == '-') then t[1..] else t;
    if !IsGroupedDigits(body) then None
    else
      var digits := Without(body, '_');
      if !AllDigits(digits) then None
      else
        var n: int := DecimalValue(digits);
        Some(if t[0] == '-' then -n else n)
  }

  lemma IntOfDigits(s: string)
    requires IsDigits(s)
    ensures IntOf(s) == Some(DecimalValue(s))
  {
    DigitsAreTrimmed(s);
    StripTrimmed(s);
    WithoutNothing(s, '_');
    assert IsDigit(s[0]);
  }

  /** `str(n)`. */
  function IntText(n: int): string {
    if n < 0 then "-" + Decimal(-n) else Decimal(n)
  }

  lemma SignedParts(sign: char, digits: string)
    requires IsDigits(digits) && (sign == '+' || sign == '-')
    ensures var t := [sign] + digits;
            Strip(t) == t && t[0] == sign && t[1..] == digits && Without(digits, '_') == digits
    ensures IsGroupedDigits(digits)
  {
    var t := [sign] + digits;
    assert t[|t| - 1] == digits[|digits| - 1];
    StripTrimmed(t);
    WithoutNothing(digits, '_');
  }

  /** A sign before the digits is read as such. */
  lemma SignedDigits(sign: char, digits: string, n: int)
    requires IsDigits(digits) && (sign == '+' || sign == '-') && DecimalValue(digits) == n
    ensures IntOf([sign] + digits) == Some(if sign == '-' then -n else n)
  {
    SignedParts(sign, digits);
  }

  // --------------------------------------------------------------------------- Cik

  datatype RawCik = Number(n: int) | Written(text: string)

  datatype Cik = Cik(value: nat)

  function LeftStripZeros(s: string): string {
    if s != "" && s[0] == '0' then LeftStripZeros(s[1..]) else s
  }

  function MakeCik(n: int): Result<Cik> {
    if 0 <= n <= MAX_CIK then Success(Cik(n)) else Failure
  }

  /** `Cik.from_raw`. */
  function FromRaw(raw: RawCik): Result<Cik> {
    match raw
    case Number(n) => MakeCik(n)
    case Written(text) =>
      var cleaned := LeftStripZeros(Strip(text));
      if cleaned == "" then MakeCik(0)
      else
        match IntOf(cleaned)
        case Some(n) => MakeCik(n)
        case None => Failure
  }

  /** A number is a CIK when it has at most ten digits and no sign. */
  lemma CikRange(n: int)
    ensures FromRaw(Number(n)).Success? <==> 0 <= n <= 9_999_999_999
    ensures FromRaw(Number(n)).Success? ==> FromRaw(Number(n)).value.value == n
  {}

  /** `to_10digit`. */
  function ToTenDigit(cik: Cik): string {
    Padded(cik.value, 10)
  }

  lemma {:induction false} LeftStripZerosValue(s: string)
    requires AllDigits(s)
    ensures AllDigits(LeftStripZeros(s)) && DecimalValue(LeftStripZeros(s)) == DecimalValue(s)
  {
    if s != "" && s[0] == '0' {
      LeftStripZerosValue(s[1..]);
      LeadingZero(s[1..]);
      assert s == "0" + s[1..];
    }
  }

  /** Any digit string, padded or not, names the CIK of its value. */
  lemma DigitsNameCik(s: string)
    requires IsDigits(s)
    ensures FromRaw(Written(s)) == MakeCik(DecimalValue(s))
  {
    DigitsAreTrimmed(s);
    StripTrimmed(s);
    LeftStripZerosValue(s);
    var cleaned := LeftStripZeros(s);
    if cleaned != "" { IntOfDigits(cleaned); }
  }

  /** Every CIK is ten digits in its padded form, and is read back from it and from its
      bare form. */
  lemma CikRoundTrip(cik: Cik)
    requires cik.value <= MAX_CIK
    ensures |ToTenDigit(cik)| == 10 && IsDigits(ToTenDigit(cik))
    ensures FromRaw(Written(ToTenDigit(cik))) == Success(cik)
    ensures FromRaw(Written(Decimal(cik.value))) == Success(cik)
  {
    assert Power10(5) == 100_000;
    assert Power10(10) == 10_000_000_000;
    DecimalLength(cik.value, 10, Power10(10));
    DigitsNameCik(ToTenDigit(cik));
    DigitsNameCik(Decimal(cik.value));
  }

  // --------------------------------------------------------------------- AccessionNumber

  datatype Accession = Accession(raw: string)

  /** `^\d{10}-\d{2}-\d{6}$`, on the whole text. */
  predicate IsHyphenated(s: string) {
    && |s| == 20 && s[10] == '-' && s[13] == '-'
    && AllDigits(s[..10]) && AllDigits(s[11..13]) && AllDigits(s[14..])
  }

  /** `^\d{18}$` with `match`: the end anchor also matches before a final newline. */
  predicate MatchesEighteenDigits(s: string) {
    |s| >= 18 && AllDigits(s[..18]) && (s[18..] == "" || s[18..] == "\n")
  }

  /** Ten, two and the remaining digits, with hyphens between. */
  function Hyphenate(s: string): string
    requires |s| >= 12
  {
    s[..10] + "-" + s[10..12] + "-" + s[12..]
  }

  /** `AccessionNumber(raw)`. */
  function MakeAccession(raw: string): Result<Accession> {
    if IsHyphenated(Strip(raw)) then Success(Accession(Strip(raw))) else Failure
  }

  /** `AccessionNumber.from_any` on text. */
  function FromAny(raw: string): Result<Accession> {
    var text := Strip(raw);
    var digits := Without(text, '-');
    MakeAccession(if !IsHyphenated(text) && MatchesEighteenDigits(digits) then Hyphenate(digits) else text)
  }

  function Normalized(accession: Accession): string {
    Without(accession.raw, '-')
  }

  predicate IsAccessionDigits(s: string) {
    |s| == 18 && AllDigits(s)
  }

  lemma {:induction false} WithoutMark(a: string, mark: string, rest: string)
    requires |mark| == 1 && mark[0] !in a
    ensures Without(a + mark + rest, mark[0]) == a + Without(rest, mark[0])
  {
    var s := a + mark + rest;
    if a == "" {
      assert s[1..] == rest;
    } else {
      WithoutMark(a[1..], mark, rest);
      assert s[1..] == a[1..] + mark + rest;
    }
  }

  lemma WithoutTwoMarks(a: string, b: string, c: string, mark: string)
    requires |mark| == 1 && mark[0] !in a && mark[0] !in b && mark[0] !in c
    ensures Without(a + mark + b + mark + c, mark[0]) == a + b + c
  {
    WithoutMark(b, mark, c);
    WithoutNothing(c, mark[0]);
    assert a + mark + b + mark + c == a + mark + (b + mark + c);
    WithoutMark(a, mark, b + mark + c);
    assert a + (b + c) == a + b + c;
  }

  lemma HyphenateDigits(d: string)
    requires IsAccessionDigits(d)
    ensures IsHyphenated(Hyphenate(d)) && Without(Hyphenate(d), '-') == d && Trimmed(Hyphenate(d))
  {
    HyphenateShape(d);
    var a, b, c := d[..10], d[10..12], d[12..];
    WithoutTwoMarks(a, b, c, "-");
    assert a + b + c == d;
  }

  lemma HyphenateShape(d: string)
    requires IsAccessionDigits(d)
    ensures IsHyphenated(Hyphenate(d)) && Trimmed(Hyphenate(d))
  {
    var h := Hyphenate(d);
    assert h[..10] == d[..10] && h[11..13] == d[10..12] && h[14..] == d[12..];
    assert h[0] == d[0] && h[19] == d[17];
  }

  lemma HyphenatedIsOfDigits(h: string) returns (d: string)
    requires IsHyphenated(h)
    ensures IsAccessionDigits(d) && h == Hyphenate(d) && Without(h, '-') == d
  {
    d := h[..10] + h[11..13] + h[14..];
    forall i | 0 <= i < |d| ensures IsDigit(d[i]) {
      if i < 10 {
        assert d[i] == h[..10][i];
      } else if i < 12 {
        assert d[i] == h[11..13][i - 10];
      } else {
        assert d[i] == h[14..][i - 12];
      }
    }
    assert d[..10] == h[..10] && d[10..12] == h[11..13] && d[12..] == h[14..];
    assert Hyphenate(d) == h;
    HyphenateDigits(d);
  }

  /** The digits of a text once outer space and hyphens are gone; a newline that only a
      hyphen protected is gone too. */
  function AccessionDigits(raw: string): string {
    var digits := Without(Strip(raw), '-');
    if |digits| >= 18 then digits[..18] else digits
  }

  /** A text is accepted exactly when 18 digits remain, and those digits alone decide the
      identity. */
  lemma FromAnyByDigits(raw: string)
    ensures FromAny(raw) == if MatchesEighteenDigits(Without(Strip(raw), '-'))
                            then Success(Accession(Hyphenate(AccessionDigits(raw))))
                            else Failure
  {
    var text := Strip(raw);
    var digits := Without(text, '-');
    StripIsTrimmed(raw);
    StripTrimmed(text);
    if IsHyphenated(text) {
      var d := HyphenatedIsOfDigits(text);
      assert d[..18] == d;
    } else if MatchesEighteenDigits(digits) {
      var d := digits[..18];
      HyphenateDigits(d);
      if digits[18..] == "" {
        assert digits == d;
        StripTrimmed(Hyphenate(d));
      } else {
        assert digits == d + "\n";
        var h := Hyphenate(d);
        assert Hyphenate(digits) == h + "\n";
        StripTrailingNewline(h);
      }
    }
  }

  lemma {:induction false} StripLeftIsTrimmed(s: string)
    ensures StripLeft(s) != "" ==> !IsSpace(StripLeft(s)[0])
  {
    if s != "" && IsSpace(s[0]) { StripLeftIsTrimmed(s[1..]); }
  }

  lemma {:induction false} StripRightIsTrimmed(s: string)
    requires s != "" ==> !IsSpace(s[0])
    ensures Trimmed(StripRight(s))
  {
    if s != "" && IsSpace(s[|s| - 1]) { StripRightIsTrimmed(s[..|s| - 1]); }
  }

  lemma StripIsTrimmed(s: string)
    ensures Trimmed(Strip(s))
  {
    StripLeftIsTrimmed(s);
    StripRightIsTrimmed(StripLeft(s));
  }

  lemma StripTrailingNewline(h: string)
    requires h != "" && Trimmed(h)
    ensures Strip(h + "\n") == h
  {
    var s := h + "\n";
    assert s[0] == h[0] && s[..|s| - 1] == h;
    assert StripLeft(s) == s;
    assert StripRight(s) == StripRight(h);
  }

  /** Both spellings of an accession name one identity, whose digits are the compact
      spelling. */
  lemma BothSpellingsAreOne(d: string)
    requires IsAccessionDigits(d)
    ensures FromAny(d) == FromAny(Hyphenate(d)) == Success(Accession(Hyphenate(d)))
    ensures Normalized(Accession(Hyphenate(d))) == d
  {
    HyphenateDigits(d);
    DigitsAreTrimmed(d);
    StripTrimmed(d);
    StripTrimmed(Hyphenate(d));
    WithoutNothing(d, '-');
    FromAnyByDigits(d);
    FromAnyByDigits(Hyphenate(d));
    assert d[..18] == d;
  }

  /** The end anchor matches before a final newline, which a hyphen shields from the first
      strip: this text is accepted too. */
  lemma NewlineAccepted(d: string)
    requires IsAccessionDigits(d)
    ensures FromAny(d + "\n" + "-") == Success(Accession(Hyphenate(d)))
  {
    var raw := d + "\n" + "-";
    assert raw[0] == d[0] && raw[|raw| - 1] == '-';
    StripTrimmed(raw);
    DigitsAreNotMarks(d, '-');
    WithoutMark(d + "\n", "-", "");
    assert raw == d + "\n" + "-" + "";
    var digits := Without(raw, '-');
    assert digits == d + "\n";
    assert digits[..18] == d && digits[18..] == "\n";
    assert AccessionDigits(raw) == d;
    FromAnyByDigits(raw);
  }

  /** Two accepted texts are one identity exactly when their digits agree. */
  lemma OneIdentityIffSameDigits(a: string, b: string)
    requires FromAny(a).Success? && FromAny(b).Success?
    ensures FromAny(a) == FromAny(b) <==> AccessionDigits(a) == AccessionDigits(b)
    ensures Normalized(FromAny(a).value) == AccessionDigits(a) && IsAccessionDigits(AccessionDigits(a))
  {
    FromAnyByDigits(a);
    FromAnyByDigits(b);
    HyphenateDigits(AccessionDigits(a));
    HyphenateDigits(AccessionDigits(b));
  }
}
