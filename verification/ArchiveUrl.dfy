/** Archive URLs: printer, parser and validator
    (edgar_sec/domain/sec_urls.py:61-76, 111-261). */
module ArchiveUrl {
  import opened Common
  import opened Text
  import opened Identity

  const SEC_ORIGIN: string := "https://www.sec.gov"
  const ARCHIVE_PATH_PREFIX: string := "/Archives/edgar/data/"
  const SEC_ARCHIVE_BASE: string := SEC_ORIGIN + "/Archives/edgar/data"

  function RightStripSlashes(s: string): string {
    if s != "" && s[|s| - 1] == '/' then RightStripSlashes(s[..|s| - 1]) else s
  }

  /** `int(cik)`. */
  function NumberOf(cik: RawCik): Option<int> {
    match cik
    case Number(n) => Some(n)
    case Written(text) => IntOf(text)
  }

  /** `archives_url`: raises only when the CIK is no integer. */
  function ArchivesUrl(cik: RawCik, accession: string, document: string, base: string): Result<string> {
    match NumberOf(cik)
    case Some(n) => Success(RightStripSlashes(base) + "/" + IntText(n) + "/" + Without(accession, '-') + "/" + document)
    case None => Failure
  }

  /** `normalize_accession`. */
  function NormalizeAccession(accession: string): Option<string> {
    var compact := Without(Strip(accession), '-');
    if accession == "" || !IsDigits(compact) || !(10 <= |compact| <= 18) then None else Some(compact)
  }

  /** `accession_hyphenated`. */
  function AccessionHyphenated(accession: string): Result<string> {
    match NormalizeAccession(accession)
    case None => Failure
    case Some(canonical) =>
      if |canonical| == 18 then Success(canonical[..10] + "-" + canonical[10..12] + "-" + canonical[12..])
      else Success(canonical[..10] + "-" + canonical[10..])
  }

  /** The hyphenated form normalises back to the digits it came from, and for 18 digits
      it is the identity's own spelling. */
  lemma HyphenatedNormalizesBack(accession: string)
    ensures AccessionHyphenated(accession).Success? <==> NormalizeAccession(accession).Some?
    ensures AccessionHyphenated(accession).Success? ==>
              NormalizeAccession(AccessionHyphenated(accession).value) == NormalizeAccession(accession)
    ensures AccessionHyphenated(accession).Success? && |NormalizeAccession(accession).value| == 18 ==>
              FromAny(accession) == Success(Accession(AccessionHyphenated(accession).value))
  {
    var r := AccessionHyphenated(accession);
    if r.Success? {
      var d := NormalizeAccession(accession).value;
      if |d| == 18 {
        HyphenateDigits(d);
        StripTrimmed(r.value);
        FromAnyByDigits(accession);
        assert d[..18] == d;
      } else {
        var a, b := d[..10], d[10..];
        assert a + b == d;
        WithoutMark(a, "-", b);
        WithoutNothing(b, '-');
        LeadingDigitsStrip(r.value, d);
        assert r.value == a + "-" + b;
        assert Without(r.value, '-') == d;
      }
    }
  }

  /** The compact form is 10 to 18 digits, read through outer space and hyphens; the
      hyphenated one has a hyphen after ten digits, and after twelve of 18. */
  lemma AccessionForms(d: string)
    requires AllDigits(d)
    ensures NormalizeAccession(d).Some? <==> 10 <= |d| <= 18
    ensures |d| == 18 ==> AccessionHyphenated(d) == Success(d[..10] + "-" + (d[10..12] + "-" + d[12..]))
    ensures 10 <= |d| < 18 ==> AccessionHyphenated(d) == Success(d[..10] + "-" + d[10..])
  {
    DigitsAreTrimmed(d);
    StripTrimmed(d);
    WithoutNothing(d, '-');
    if |d| == 18 {
      assert d[..10] + "-" + (d[10..12] + "-" + d[12..]) == d[..10] + "-" + d[10..12] + "-" + d[12..];
    }
  }

  /** Digits, a hyphen and perhaps more digits: only the hyphen can be lost. */
  lemma LeadingDigitsStrip(h: string, d: string)
    requires IsDigits(d) && 10 <= |d| && h == d[..10] + "-" + d[10..]
    ensures Strip(h) == h
  {
    assert h[0] == d[0];
    assert h[|h| - 1] == if |d| == 10 then '-' else d[|d| - 1];
    StripTrimmed(h);
  }

  // --------------------------------------------------------------- the path pattern

  datatype Parts = Parts(url: string, archiveCik: string, accession: string, documentPath: string)

  function DigitRun(s: string): (n: nat)
    ensures n <= |s| && AllDigits(s[..n]) && (n < |s| ==> !IsDigit(s[n]))
  {
    if s == "" || !IsDigit(s[0]) then 0
    else
      var n := 1 + DigitRun(s[1..]);
      assert s[..n] == [s[0]] + s[1..][..n - 1];
      n
  }

  lemma {:induction false} DigitRunUntil(a: string, rest: string)
    requires AllDigits(a) && (rest != "" ==> !IsDigit(rest[0]))
    ensures DigitRun(a + rest) == |a|
  {
    if a == "" {
      assert a + rest == rest;
    } else {
      DigitRunUntil(a[1..], rest);
      assert (a + rest)[1..] == a[1..] + rest;
    }
  }

  /** What the pattern means: prefix, CIK digits, 10 to 18 accession digits, and a
      document path on one line. */
  ghost predicate PathMatches(path: string, cik: string, accession: string, document: string) {
    && path == ARCHIVE_PATH_PREFIX + cik + "/" + accession + "/" + document
    && IsDigits(cik) && AllDigits(accession) && 10 <= |accession| <= 18
    && document != "" && '\n' !in document
  }

  /** The segment up to the next slash, if it is digits, and what follows the slash. */
  function DigitSegment(s: string): Option<(string, string)> {
    var n := DigitRun(s);
    if n < |s| && s[n] == '/' then Some((s[..n], s[n + 1..])) else None
  }

  lemma DigitSegmentFound(digits: string, slash: string, rest: string)
    requires AllDigits(digits) && slash == "/"
    ensures DigitSegment(digits + slash + rest) == Some((digits, rest))
  {
    var s := digits + slash + rest;
    assert s == digits + (slash + rest);
    DigitRunUntil(digits, slash + rest);
    assert s[..|digits|] == digits && s[|digits| + 1..] == rest;
  }

  lemma DigitSegmentSpells(s: string, slash: string)
    requires DigitSegment(s).Some? && slash == "/"
    ensures var (digits, rest) := DigitSegment(s).value; AllDigits(digits) && s == digits + slash + rest
  {
    var n := DigitRun(s);
    assert s == s[..n] + [s[n]] + s[n + 1..];
  }

  lemma DigitSegmentIff(s: string, digits: string, rest: string)
    ensures DigitSegment(s) == Some((digits, rest)) <==> AllDigits(digits) && s == digits + "/" + rest
  {
    if AllDigits(digits) {
      DigitSegmentFound(digits, "/", rest);
    }
    if DigitSegment(s).Some? {
      DigitSegmentSpells(s, "/");
    }
  }

  /** `_ARCHIVE_PATH_RE.fullmatch`. */
  function MatchArchivePath(path: string): Option<(string, string, string)> {
    if !(ARCHIVE_PATH_PREFIX <= path) then None
    else
      match DigitSegment(path[|ARCHIVE_PATH_PREFIX|..])
      case None => None
      case Some((cik, rest)) =>
        match DigitSegment(rest)
        case None => None
        case Some((accession, document)) =>
          if cik != "" && 10 <= |accession| <= 18 && document != "" && '\n' !in document
          then Some((cik, accession, document)) else None
  }

  lemma PrefixCut(s: string, p: string, t: string)
    ensures s == p + t <==> p <= s && s[|p|..] == t
  {}

  lemma Regroup(p: string, cik: string, accession: string, document: string)
    ensures p + cik + "/" + accession + "/" + document == p + (cik + "/" + (accession + "/" + document))
  {}

  /** The two digit segments of what follows the prefix. */
  lemma SegmentsIff(tail: string, cik: string, accession: string, document: string)
    ensures AllDigits(cik) && AllDigits(accession) && tail == cik + "/" + (accession + "/" + document)
       <==> DigitSegment(tail).Some? && DigitSegment(tail).value.0 == cik
            && DigitSegment(DigitSegment(tail).value.1) == Some((accession, document))
  {
    var rest := accession + "/" + document;
    DigitSegmentIff(tail, cik, rest);
    DigitSegmentIff(rest, accession, document);
    if DigitSegment(tail).Some? {
      var (_, r) := DigitSegment(tail).value;
      DigitSegmentIff(tail, cik, r);
      DigitSegmentIff(r, accession, document);
    }
  }

  /** The matcher finds exactly what the pattern means. */
  lemma MatchIff(path: string, cik: string, accession: string, document: string)
    ensures MatchArchivePath(path) == Some((cik, accession, document)) <==> PathMatches(path, cik, accession, document)
  {
    var p := ARCHIVE_PATH_PREFIX;
    Regroup(p, cik, accession, document);
    PrefixCut(path, p, cik + "/" + (accession + "/" + document));
    if p <= path {
      SegmentsIff(path[|p|..], cik, accession, document);
    }
  }

  predicate OnlySlashes(s: string) {
    forall i :: 0 <= i < |s| ==> s[i] == '/'
  }

  /** `_archive_parts`. */
  function ArchiveParts(path: string, url: string): Option<Parts> {
    match MatchArchivePath(path)
    case None => None
    case Some((cik, matched, document)) =>
      match NormalizeAccession(matched)
      case None => None
      case Some(accession) =>
        if OnlySlashes(document) then None else Some(Parts(url, cik, accession, document))
  }

  lemma DigitsNormalize(accession: string)
    requires AllDigits(accession) && 10 <= |accession| <= 18
    ensures NormalizeAccession(accession) == Some(accession)
  {
    DigitsAreTrimmed(accession);
    StripTrimmed(accession);
    WithoutNothing(accession, '-');
  }

  /** Exactly the paths the pattern describes have parts, and the parts spell the path. */
  lemma PartsIff(path: string, url: string, parts: Parts)
    ensures ArchiveParts(path, url) == Some(parts) <==>
              && PathMatches(path, parts.archiveCik, parts.accession, parts.documentPath)
              && !OnlySlashes(parts.documentPath) && parts.url == url
  {
    MatchIff(path, parts.archiveCik, parts.accession, parts.documentPath);
    var m := MatchArchivePath(path);
    if m.Some? {
      MatchIff(path, m.value.0, m.value.1, m.value.2);
      DigitsNormalize(m.value.1);
    }
  }

  // ---------------------------------------------------------------------- the parser

  /** `parse_archive_url`; no URL and the empty one are both refused. */
  function ParseArchiveUrl(url: string): Option<Parts> {
    var value := Strip(url);
    if SEC_ARCHIVE_BASE + "/" <= value then ArchiveParts(value[|SEC_ORIGIN|..], value) else None
  }

  function PrintedUrl(cik: nat, accession: string, document: string): string {
    SEC_ORIGIN + ARCHIVE_PATH_PREFIX + Decimal(cik) + "/" + accession + "/" + document
  }

  lemma BaseHasNoSlash()
    ensures RightStripSlashes(SEC_ARCHIVE_BASE) == SEC_ARCHIVE_BASE
    ensures SEC_ARCHIVE_BASE + "/" == SEC_ORIGIN + ARCHIVE_PATH_PREFIX
  {
    assert SEC_ARCHIVE_BASE[|SEC_ARCHIVE_BASE| - 1] == 'a';
  }

  /** The printer drops hyphens from the accession and padding from the CIK, in every
      combination of spellings. */
  lemma PrinterDrops(raw: RawCik, cik: nat, accession: string, d: string, document: string)
    requires NumberOf(raw) == Some(cik) && Without(accession, '-') == d
    ensures ArchivesUrl(raw, accession, document, SEC_ARCHIVE_BASE) == Success(PrintedUrl(cik, d, document))
  {
    BaseHasNoSlash();
    JoinSame(RightStripSlashes(SEC_ARCHIVE_BASE), SEC_ORIGIN, ARCHIVE_PATH_PREFIX, Decimal(cik), d, document);
  }

  lemma JoinSame(base: string, origin: string, p: string, cik: string, d: string, document: string)
    requires base + "/" == origin + p
    ensures base + "/" + cik + "/" + d + "/" + document == origin + p + cik + "/" + d + "/" + document
  {}

  /** The spellings of a CIK and of an 18-digit accession. */
  lemma UsualSpellings(cik: nat, d: string)
    requires IsAccessionDigits(d)
    ensures NumberOf(Written(Padded(cik, 10))) == NumberOf(Written(Decimal(cik))) == Some(cik)
    ensures Without(d, '-') == Without(Hyphenate(d), '-') == d
  {
    IntOfDigits(Padded(cik, 10));
    IntOfDigits(Decimal(cik));
    WithoutNothing(d, '-');
    HyphenateDigits(d);
  }

  lemma NoSlashInNumber(n: int)
    ensures '/' !in IntText(n)
  {
    DigitsAreNotMarks(Decimal(if n < 0 then -n else n), '/');
  }

  lemma NumberTextInjective(n: int, m: int)
    requires IntText(n) == IntText(m)
    ensures n == m
  {
    var a, b := Decimal(if n < 0 then -n else n), Decimal(if m < 0 then -m else m);
    assert IsDigit(a[0]) && IsDigit(b[0]);
    assert n < 0 ==> IntText(n)[0] == '-' && IntText(n)[1..] == a;
    assert m < 0 ==> IntText(m)[0] == '-' && IntText(m)[1..] == b;
  }

  /** What stands before the first slash, and after it, can be told from the whole. */
  lemma SlashSplits(a: string, rest: string, b: string, rest': string, slash: string)
    requires slash == "/" && '/' !in a && '/' !in b
    requires a + slash + rest == b + slash + rest'
    ensures a == b && rest == rest'
  {
    FindFirstSeparator(a, slash, rest);
    FindFirstSeparator(b, slash, rest');
    var s := a + slash + rest;
    assert a == s[..|a|] && b == s[..|a|];
    assert rest == s[|a| + 1..] && rest' == s[|a| + 1..];
  }

  lemma WithoutSubset(s: string, c: char, x: char)
    requires x !in s
    ensures x !in Without(s, c)
  {
    if s != "" { WithoutSubset(s[1..], c, x); }
  }

  lemma GroupTail(base: string, n: string, d: string, document: string)
    ensures base + "/" + n + "/" + d + "/" + document == (base + "/") + (n + "/" + (d + "/" + document))
  {}

  lemma CancelFront(front: string, a: string, b: string)
    requires front + a == front + b
    ensures a == b
  {
    assert (front + a)[|front|..] == a && (front + b)[|front|..] == b;
  }

  /** Two calls print one URL exactly when the CIK numbers, the accession digits and the
      documents agree: the URL names its document, under any base and spelling. */
  lemma PrinterIdentifies(cik: RawCik, accession: string, document: string, cik': RawCik, accession': string,
                          document': string,
                          base: string)
    requires NumberOf(cik).Some? && NumberOf(cik').Some? && '/' !in accession && '/' !in accession'
    ensures ArchivesUrl(cik, accession, document, base) == ArchivesUrl(cik', accession', document', base)
       <==> (NumberOf(cik) == NumberOf(cik') && Without(accession, '-') == Without(accession', '-')
             && document == document')
  {
    if ArchivesUrl(cik, accession, document, base) == ArchivesUrl(cik', accession', document', base) {
      var n, m := NumberOf(cik).value, NumberOf(cik').value;
      var d, e := Without(accession, '-'), Without(accession', '-');
      var front := RightStripSlashes(base);
      GroupTail(front, IntText(n), d, document);
      GroupTail(front, IntText(m), e, document');
      CancelFront(front + "/", IntText(n) + "/" + (d + "/" + document), IntText(m) + "/" + (e + "/" + document'));
      NoSlashInNumber(n);
      NoSlashInNumber(m);
      SlashSplits(IntText(n), d + "/" + document, IntText(m), e + "/" + document', "/");
      NumberTextInjective(n, m);
      WithoutSubset(accession, '-', '/');
      WithoutSubset(accession', '-', '/');
      SlashSplits(d, document, e, document', "/");
    }
  }

  lemma PrintedPath(cik: nat, d: string, document: string)
    ensures var url := PrintedUrl(cik, d, document);
            && SEC_ARCHIVE_BASE + "/" <= url
            && url[|SEC_ORIGIN|..] == ARCHIVE_PATH_PREFIX + Decimal(cik) + "/" + d + "/" + document
  {
    var url := PrintedUrl(cik, d, document);
    assert SEC_ARCHIVE_BASE + "/" == SEC_ORIGIN + ARCHIVE_PATH_PREFIX;
    assert url == SEC_ORIGIN + ARCHIVE_PATH_PREFIX + (Decimal(cik) + "/" + d + "/" + document);
    assert url == SEC_ORIGIN + (ARCHIVE_PATH_PREFIX + Decimal(cik) + "/" + d + "/" + document);
  }

  /** A document path the parser gives back. */
  predicate ReadableDocument(document: string) {
    && document != "" && '\n' !in document && !OnlySlashes(document)
    && !IsSpace(document[|document| - 1])
  }

  lemma {:induction false} StripRightLength(s: string)
    ensures |StripRight(s)| <= |s|
  {
    if s != "" && IsSpace(s[|s| - 1]) { StripRightLength(s[..|s| - 1]); }
  }

  lemma StripsNothingIff(front: string, document: string)
    requires front != "" && !IsSpace(front[0]) && !IsSpace(front[|front| - 1])
    ensures Strip(front + document) == front + document <==> document == "" || !IsSpace(document[|document| - 1])
  {
    var s := front + document;
    assert s[0] == front[0];
    if document == "" {
      assert s == front;
    } else {
      assert s[|s| - 1] == document[|document| - 1];
      if IsSpace(document[|document| - 1]) {
        StripRightLength(s[..|s| - 1]);
      }
    }
  }

  /** Parsing the printed URL returns the CIK number, the accession digits and the path
      exactly when the document path is readable. */
  lemma ParsePrintedIff(cik: nat, d: string, document: string)
    requires IsAccessionDigits(d)
    ensures var url := PrintedUrl(cik, d, document);
            ParseArchiveUrl(url) == Some(Parts(url, Decimal(cik), d, document)) <==> ReadableDocument(document)
  {
    var url := PrintedUrl(cik, d, document);
    var front := SEC_ORIGIN + ARCHIVE_PATH_PREFIX + Decimal(cik) + "/" + d + "/";
    assert url == front + document && front[0] == 'h' && front[|front| - 1] == '/';
    StripsNothingIff(front, document);
    PrintedPath(cik, d, document);
    PartsIff(url[|SEC_ORIGIN|..], url, Parts(url, Decimal(cik), d, document));
    ParsedUrlIsStripped(url);
  }

  lemma ParsedUrlIsStripped(url: string)
    ensures ParseArchiveUrl(url).Some? ==> ParseArchiveUrl(url).value.url == Strip(url)
  {
    var value := Strip(url);
    if SEC_ARCHIVE_BASE + "/" <= value && ArchiveParts(value[|SEC_ORIGIN|..], value).Some? {
      PartsIff(value[|SEC_ORIGIN|..], value, ArchiveParts(value[|SEC_ORIGIN|..], value).value);
    }
  }

  /** Printing the parts of a parsed URL gives the URL back, outer space aside, exactly
      when its CIK carries no padding. */
  lemma PrintParsedIff(url: string)
    requires ParseArchiveUrl(url).Some?
    ensures var p := ParseArchiveUrl(url).value;
            && IsDigits(p.archiveCik)
            && (ArchivesUrl(Written(p.archiveCik), p.accession, p.documentPath, SEC_ARCHIVE_BASE) == Success(Strip(url))
                <==> p.archiveCik == Decimal(DecimalValue(p.archiveCik)))
  {
    var p := ParseArchiveUrl(url).value;
    var value := Strip(url);
    PartsIff(value[|SEC_ORIGIN|..], value, p);
    IntOfDigits(p.archiveCik);
    var n := DecimalValue(p.archiveCik);
    WithoutNothing(p.accession, '-');
    assert ArchivesUrl(Written(p.archiveCik), p.accession, p.documentPath, SEC_ARCHIVE_BASE)
        == ArchivesUrl(Number(n), p.accession, p.documentPath, SEC_ARCHIVE_BASE);
    PrinterDrops(Number(n), n, p.accession, p.accession, p.documentPath);
    OriginFirst(value);
    SameMiddle(SEC_ORIGIN, ARCHIVE_PATH_PREFIX, Decimal(n), p.archiveCik, p.accession, p.documentPath);
  }

  lemma OriginFirst(value: string)
    requires SEC_ARCHIVE_BASE + "/" <= value
    ensures value == SEC_ORIGIN + value[|SEC_ORIGIN|..]
  {
    var rest := "/Archives/edgar/data";
    assert SEC_ARCHIVE_BASE + "/" == SEC_ORIGIN + (rest + "/");
    PrefixOfPrefix(SEC_ORIGIN, rest + "/", value);
  }

  lemma PrefixOfPrefix(p: string, q: string, s: string)
    requires p + q <= s
    ensures s == p + s[|p|..]
  {
    assert (p + q)[..|p|] == p;
  }

  /** Two URLs that differ only in the CIK are equal exactly when the CIKs are. */
  lemma SameMiddle(origin: string, p: string, a: string, b: string, accession: string, document: string)
    ensures (origin + p + a + "/" + accession + "/" + document == origin + (p + b + "/" + accession + "/" + document))
       <==> a == b
  {
    var tail := "/" + accession + "/" + document;
    var front := origin + p;
    var x, y := front + a + tail, front + b + tail;
    assert x == origin + p + a + "/" + accession + "/" + document;
    assert y == origin + (p + b + "/" + accession + "/" + document);
    if x == y {
      assert |a| == |b|;
      assert x[|front|..|front| + |a|] == a && y[|front|..|front| + |b|] == b;
    }
  }

  /** A document path that ends in a space is printed and not read back. */
  lemma TrailingSpaceNotReadBack(cik: nat, d: string)
    requires IsAccessionDigits(d)
    ensures var document := "a.htm ";
            var url := PrintedUrl(cik, d, document);
            ParseArchiveUrl(url) != Some(Parts(url, Decimal(cik), d, document))
  {
    ParsePrintedIff(cik, d, "a.htm ");
  }

  // ------------------------------------------------------------------- URL splitting

  predicate IsLetter(c: char) {
    'a' <= c <= 'z' || 'A' <= c <= 'Z'
  }

  function LowerChar(c: char): char {
    if 'A' <= c <= 'Z' then (c as int + 32) as char else c
  }

  /** `casefold` on ASCII text. */
  function Lower(s: string): (r: string)
    ensures |r| == |s|
    ensures forall i :: 0 <= i < |s| && 'A' <= s[i] <= 'Z' ==> r[i] as int == s[i] as int + 32
    ensures forall i :: 0 <= i < |s| && !('A' <= s[i] <= 'Z') ==> r[i] == s[i]
  {
    seq(|s|, i requires 0 <= i < |s| => LowerChar(s[i]))
  }

  predicate IsSchemeChar(c: char) {
    IsLetter(c) || IsDigit(c) || c == '+' || c == '-' || c == '.'
  }

  /** Where `s` has the first of the characters, or its length. */
  function FirstOf(s: string, cs: set<char>): (n: nat)
    ensures n <= |s| && (n < |s| ==> s[n] in cs) && forall i :: 0 <= i < n ==> s[i] !in cs
  {
    if s == "" || s[0] in cs then 0 else 1 + FirstOf(s[1..], cs)
  }

  datatype Split3 = Split3(scheme: string, netloc: Option<string>, path: string)

  /** `urlsplit` of text without query, fragment, space or control characters. */
  function UrlSplit(url: string): Split3 {
    var colon := FirstOf(url, {':'});
    if colon < |url| && IsPlainScheme(url[..colon]) then SplitAuthority(Lower(url[..colon]), url[colon + 1..])
    else SplitAuthority("", url)
  }

  /** What follows the scheme: two slashes and a network location, or a path. */
  function SplitAuthority(scheme: string, rest: string): Split3 {
    if "//" <= rest then
      var after := rest[2..];
      var slash := FirstOf(after, {'/'});
      Split3(scheme, Some(after[..slash]), after[slash..])
    else Split3(scheme, None, rest)
  }

  predicate IsPlainScheme(s: string) {
    s != "" && IsLetter(s[0]) && forall i :: 0 <= i < |s| ==> IsSchemeChar(s[i])
  }

  /** The host of a network location without user information, brackets or port; an
      empty port after the colon is the same as none. */
  function PlainHost(netloc: string): Option<string> {
    var colon := FirstOf(netloc, {':'});
    if '@' in netloc || '[' in netloc || ']' in netloc || colon == 0 || |netloc| > colon + 1 then None
    else if |netloc| == 0 then None
    else Some(Lower(netloc[..colon]))
  }

  // --------------------------------------------------------------------- the validator

  datatype Policy = Policy(schemes: set<string>, hosts: set<string>)

  predicate IsScheme(s: string) {
    s != "" && 'a' <= s[0] <= 'z' && forall i :: 0 <= i < |s| ==> IsSchemeChar(s[i]) && !('A' <= s[i] <= 'Z')
  }

  /** `ArchiveUrlPolicy.__post_init__`: folded to lower case, checked, and stored. */
  function MakePolicy(schemes: set<string>, hosts: set<string>): Result<Policy> {
    var s := set x | x in schemes :: Lower(x);
    var h := set x | x in hosts :: Lower(x);
    if s == {} || h == {} || (exists x :: x in s && !IsScheme(x))
       || (exists x :: x in h && (x == "" || '/' in x || ':' in x || '@' in x))
    then Failure else Success(Policy(s, h))
  }

  const DEFAULT_POLICY: Policy := Policy({"https"}, {"www.sec.gov"})

  /** Whatever letter case a policy is written in, it is stored folded, and its hosts
      are ones a split can produce. */
  lemma PolicyIsFolded(schemes: set<string>, hosts: set<string>)
    requires MakePolicy(schemes, hosts).Success?
    ensures var p := MakePolicy(schemes, hosts).value;
            && MakePolicy(p.schemes, p.hosts) == Success(p)
            && (forall x :: x in p.schemes ==> IsScheme(x)) && "" !in p.hosts
  {
    var p := MakePolicy(schemes, hosts).value;
    LowerAll(schemes);
    LowerAll(hosts);
  }

  lemma LowerAll(xs: set<string>)
    ensures var ys := set x | x in xs :: Lower(x); (set y | y in ys :: Lower(y)) == ys
  {
    var ys := set x | x in xs :: Lower(x);
    forall y | y in ys ensures Lower(y) == y {
      var x :| x in xs && y == Lower(x);
      assert forall i :: 0 <= i < |x| ==> LowerChar(LowerChar(x[i])) == LowerChar(x[i]);
    }
  }

  predicate AllowedChars(url: string) {
    forall i :: 0 <= i < |url| ==> url[i] as int > 32 && url[i] as int != 127 && url[i] != '?' && url[i] != '#'
  }

  /** The scheme and host are the policy's; no user information and no port. */
  predicate AllowedOrigin(parts: Split3, policy: Policy) {
    && parts.scheme in policy.schemes
    && parts.netloc.Some? && PlainHost(parts.netloc.value).Some?
    && PlainHost(parts.netloc.value).value in policy.hosts
  }

  predicate SafePath(path: string) {
    && '%' !in path && '\\' !in path && Find(path, "//").None?
    && DotFree(Split(path, "/"))
  }

  /** `validate_archive_url`. */
  function ValidateArchiveUrl(url: string, accession: string, expectedCik: Option<RawCik>,
                              policy: Policy): Result<Parts> {
    if url == "" || Strip(url) != url || !AllowedChars(url) then Failure
    else
      var parts := UrlSplit(url);
      if !AllowedOrigin(parts, policy) || !SafePath(parts.path) then Failure
      else
        match FromAny(accession)
        case Failure => Failure
        case Success(expected) =>
          match ArchiveParts(parts.path, url)
          case None => Failure
          case Some(archive) =>
            if archive.accession != Normalized(expected) then Failure
            else
              match expectedCik
              case None => Success(archive)
              case Some(raw) =>
                match FromRaw(raw)
                case Failure => Failure
                case Success(cik) =>
                  if AllDigits(archive.archiveCik) && DecimalValue(archive.archiveCik) == cik.value
                      then Success(archive) else Failure
  }

  // ---------------------------------------------------------- which documents are safe

  /** The document paths that can be printed into a URL the validator accepts. */
  predicate SafeDocument(document: string) {
    && document != "" && document[0] != '/'
    && AllowedChars(document) && SafePath(document)
  }

  lemma SafeIsReadable(document: string)
    requires SafeDocument(document)
    ensures ReadableDocument(document)
  {
    assert document[|document| - 1] as int > 32;
    assert '\n' as int == 10;
  }

  lemma AllowedConcat(a: string, b: string)
    ensures AllowedChars(a + b) <==> AllowedChars(a) && AllowedChars(b)
  {
    var s := a + b;
    if AllowedChars(s) {
      forall i | 0 <= i < |b| ensures b[i] == s[|a| + i] {}
      forall i | 0 <= i < |a| ensures a[i] == s[i] {}
    }
  }

  lemma DigitsAllowed(d: string)
    requires AllDigits(d)
    ensures AllowedChars(d)
  {}

  predicate DotFree(segments: seq<string>) {
    forall i :: 0 <= i < |segments| ==> segments[i] != "." && segments[i] != ".."
  }

  predicate DoubleAt(s: string, mark: char, i: int) {
    0 <= i < |s| - 1 && s[i] == mark && s[i + 1] == mark
  }

  lemma FindDouble(s: string, double: string, mark: char)
    requires double == [mark, mark]
    ensures Find(s, double).None? <==> forall i :: !DoubleAt(s, mark, i)
  {
    forall i ensures OccursAt(s, double, i) <==> DoubleAt(s, mark, i) {
      if 0 <= i && i + 2 <= |s| {
        assert s[i..i + 2] == [s[i], s[i + 1]];
      }
    }
    if Find(s, double).Some? {
      assert DoubleAt(s, mark, Find(s, double).value);
    }
  }

  lemma DoubleInTail(a: string, mark: char, rest: string)
    requires mark !in a
    ensures (forall i :: !DoubleAt(a + [mark] + rest, mark, i))
              <==> (forall i :: !DoubleAt(rest, mark, i)) && !([mark] <= rest)
  {
    var s, n := a + [mark] + rest, |a| + 1;
    forall j ensures DoubleAt(rest, mark, j) <==> DoubleAt(s, mark, n + j) && 0 <= j {}
    if forall i :: !DoubleAt(s, mark, i) {
      forall j ensures !DoubleAt(rest, mark, j) {
        assert !DoubleAt(s, mark, n + j);
      }
      assert !DoubleAt(s, mark, |a|);
    }
    if (forall i :: !DoubleAt(rest, mark, i)) && !([mark] <= rest) {
      forall i ensures !DoubleAt(s, mark, i) {
        assert 0 <= i < |a| ==> s[i] == a[i];
        assert !DoubleAt(rest, mark, i - n);
      }
    }
  }

  lemma DotFreeTail(a: string, rest: string)
    requires '/' !in a && a != "." && a != ".."
    ensures DotFree(Split(a + "/" + rest, "/")) <==> DotFree(Split(rest, "/"))
  {
    SplitAtSeparator(a, "/", rest);
    DotFreeCons(a, Split(rest, "/"));
  }

  lemma DotFreeCons(a: string, tail: seq<string>)
    requires a != "." && a != ".."
    ensures DotFree([a] + tail) <==> DotFree(tail)
  {
    var all := [a] + tail;
    assert forall i :: 0 <= i < |tail| ==> all[i + 1] == tail[i];
    if DotFree(all) {
      forall i | 0 <= i < |tail| ensures tail[i] != "." && tail[i] != ".." {
        assert all[i + 1] == tail[i];
      }
    }
  }

  /** One more leading segment: safe exactly when the rest is and does not begin with a
      slash. */
  lemma SafeSegment(a: string, rest: string)
    requires '/' !in a && '%' !in a && '\\' !in a && a != "." && a != ".."
    ensures SafePath(a + "/" + rest) <==> SafePath(rest) && !("/" <= rest)
  {
    var s := a + "/" + rest;
    DotFreeTail(a, rest);
    FindDouble(s, "//", '/');
    FindDouble(rest, "//", '/');
    DoubleInTail(a, '/', rest);
    assert '%' in s <==> '%' in rest;
    assert '\\' in s <==> '\\' in rest;
  }

  /** A segment that is safe by itself and names something. */
  predicate IsPlainSegment(a: string) {
    a != "" && '/' !in a && '%' !in a && '\\' !in a && a != "." && a != ".."
  }

  lemma PlainSegmentSafe(a: string, rest: string)
    requires IsPlainSegment(a)
    ensures SafePath(a + "/" + rest) <==> SafePath(rest) && !("/" <= rest)
    ensures !("/" <= a + "/" + rest)
  {
    SafeSegment(a, rest);
    assert (a + "/" + rest)[0] == a[0];
  }

  lemma ThreeSegmentsSafe(prefix: string, a: string, b: string, c: string, slash: string, rest: string)
    requires IsPlainSegment(a) && IsPlainSegment(b) && IsPlainSegment(c) && slash == "/"
    requires prefix == slash + a + slash + b + slash + c + slash
    ensures SafePath(prefix + rest) <==> SafePath(rest) && !("/" <= rest)
  {
    var r3 := c + slash + rest;
    var r2 := b + slash + r3;
    var r1 := a + slash + r2;
    assert prefix + rest == "" + slash + r1;
    PlainSegmentSafe(c, rest);
    PlainSegmentSafe(b, r3);
    PlainSegmentSafe(a, r2);
    SafeSegment("", r1);
  }

  lemma ArchivePrefixParts()
    ensures ARCHIVE_PATH_PREFIX == "/" + "Archives" + "/" + "edgar" + "/" + "data" + "/"
    ensures IsPlainSegment("Archives") && IsPlainSegment("edgar") && IsPlainSegment("data")
  {}

  lemma ArchivePrefixSafe(rest: string)
    ensures SafePath(ARCHIVE_PATH_PREFIX + rest) <==> SafePath(rest) && !("/" <= rest)
  {
    ArchivePrefixParts();
    ThreeSegmentsSafe(ARCHIVE_PATH_PREFIX, "Archives", "edgar", "data", "/", rest);
  }

  lemma DigitSegmentSafe(digits: string, rest: string)
    requires IsDigits(digits)
    ensures SafePath(digits + "/" + rest) <==> SafePath(rest) && !("/" <= rest)
    ensures !("/" <= digits + "/" + rest)
  {
    assert IsDigit(digits[0]);
    DigitsAreNotMarks(digits, '/');
    PlainSegmentSafe(digits, rest);
  }

  /** The path of a printed URL is safe exactly when the document's is. */
  lemma PrintedPathSafe(cik: string, d: string, document: string)
    requires IsDigits(cik) && IsDigits(d)
    ensures SafePath(ARCHIVE_PATH_PREFIX + cik + "/" + d + "/" + document) <==> SafePath(document) && !("/" <= document)
  {
    var rest := d + "/" + document;
    Regroup(ARCHIVE_PATH_PREFIX, cik, d, document);
    DigitSegmentSafe(d, document);
    DigitSegmentSafe(cik, rest);
    ArchivePrefixSafe(cik + "/" + rest);
  }

  lemma {:induction false} FirstOfAt(a: string, rest: string, cs: set<char>)
    requires forall i :: 0 <= i < |a| ==> a[i] !in cs
    requires rest == "" || rest[0] in cs
    ensures FirstOf(a + rest, cs) == |a|
  {
    if a == "" {
      assert a + rest == rest;
    } else {
      FirstOfAt(a[1..], rest, cs);
      assert (a + rest)[1..] == a[1..] + rest;
    }
  }

  predicate IsPlainHost(s: string) {
    s != "" && forall i :: 0 <= i < |s| ==> s[i] !in {'/', ':', '@', '[', ']'}
  }

  lemma SplitAtScheme(scheme: string, colon: string, rest: string)
    requires IsPlainScheme(scheme) && colon == ":"
    ensures UrlSplit(scheme + colon + rest) == SplitAuthority(Lower(scheme), rest)
  {
    var url := scheme + colon + rest;
    assert url == scheme + (colon + rest);
    FirstOfAt(scheme, colon + rest, {':'});
    assert url[..|scheme|] == scheme && url[|scheme| + 1..] == rest;
  }

  lemma SplitAtHost(scheme: string, slashes: string, host: string, path: string)
    requires IsPlainHost(host) && path != "" && path[0] == '/' && slashes == "//"
    ensures SplitAuthority(scheme, slashes + host + path) == Split3(scheme, Some(host), path)
  {
    var rest := slashes + host + path;
    FirstOfAt(host, path, {'/'});
    assert slashes <= rest && rest[2..] == host + path;
    assert (host + path)[..|host|] == host && (host + path)[|host|..] == path;
  }

  lemma HostIsPlain(host: string)
    requires IsPlainHost(host)
    ensures PlainHost(host) == Some(Lower(host))
  {
    FirstOfAt(host, "", {':'});
    assert host + "" == host;
    assert host[..|host|] == host;
  }

  /** Splitting takes a plain URL of an origin apart. */
  lemma SplitPlainUrl(origin: string, scheme: string, colon: string, slashes: string, host: string, path: string)
    requires IsPlainScheme(scheme) && IsPlainHost(host) && path != "" && path[0] == '/'
    requires colon == ":" && slashes == "//" && origin == scheme + colon + slashes + host
    ensures UrlSplit(origin + path) == Split3(Lower(scheme), Some(host), path)
  {
    assert origin + path == scheme + colon + (slashes + host + path);
    SplitAtScheme(scheme, colon, slashes + host + path);
    SplitAtHost(Lower(scheme), slashes, host, path);
  }

  lemma LowerKeeps(s: string)
    requires forall i :: 0 <= i < |s| ==> !('A' <= s[i] <= 'Z')
    ensures Lower(s) == s
  {}

  lemma SecOriginParts()
    ensures SEC_ORIGIN == "https" + ":" + "//" + "www.sec.gov"
    ensures IsPlainScheme("https") && IsPlainHost("www.sec.gov")
    ensures Lower("https") == "https" && Lower("www.sec.gov") == "www.sec.gov"
  {
    LowerKeeps("https");
    LowerKeeps("www.sec.gov");
  }

  /** Splitting a URL of the SEC origin. */
  lemma SplitSecUrl(path: string)
    requires path != "" && path[0] == '/'
    ensures UrlSplit(SEC_ORIGIN + path) == Split3("https", Some("www.sec.gov"), path)
    ensures AllowedOrigin(UrlSplit(SEC_ORIGIN + path), DEFAULT_POLICY)
  {
    SecOriginParts();
    SplitPlainUrl(SEC_ORIGIN, "https", ":", "//", "www.sec.gov", path);
    HostIsPlain("www.sec.gov");
  }

  lemma PrintedChars(cik: nat, d: string, document: string)
    requires AllDigits(d)
    ensures AllowedChars(PrintedUrl(cik, d, document)) <==> AllowedChars(document)
  {
    var front := SEC_ORIGIN + ARCHIVE_PATH_PREFIX;
    assert AllowedChars(front) && AllowedChars("/");
    DigitsAllowed(Decimal(cik));
    DigitsAllowed(d);
    AllowedConcat(front, Decimal(cik));
    AllowedConcat(front + Decimal(cik), "/");
    AllowedConcat(front + Decimal(cik) + "/", d);
    AllowedConcat(front + Decimal(cik) + "/" + d, "/");
    AllowedConcat(front + Decimal(cik) + "/" + d + "/", document);
  }

  /** The validator accepts a printed URL for its accession and CIK, whichever spelling
      either is given in, exactly when the document path is safe; and then it returns
      what the parser returns. */
  lemma ValidatePrintedIff(cik: nat, d: string, document: string, accession: string, expectedCik: Option<RawCik>)
    requires cik <= MAX_CIK && IsAccessionDigits(d)
    requires accession == d || accession == Hyphenate(d)
    requires expectedCik in {None, Some(Number(cik)), Some(Written(Decimal(cik))), Some(Written(Padded(cik, 10)))}
    ensures var url := PrintedUrl(cik, d, document);
            var r := ValidateArchiveUrl(url, accession, expectedCik, DEFAULT_POLICY);
            && (r.Success? <==> SafeDocument(document))
            && (r.Success? ==> r.value == Parts(url, Decimal(cik), d, document))
            && (r.Success? ==> ParseArchiveUrl(url) == Some(r.value))
  {
    var url := PrintedUrl(cik, d, document);
    var path := ARCHIVE_PATH_PREFIX + Decimal(cik) + "/" + d + "/" + document;
    var parts := Parts(url, Decimal(cik), d, document);
    PrintedSplit(cik, d, document, url, path);
    BothSpellingsAreOne(d);
    CikRoundTrip(Cik(cik));
    PrintedPathSafe(Decimal(cik), d, document);
    PrintedChars(cik, d, document);
    if SafeDocument(document) {
      SafeIsReadable(document);
      ParsePrintedIff(cik, d, document);
      PartsIff(path, url, parts);
      AcceptedIsTrimmed(url);
      ExpectedAccepts(url, accession, d, expectedCik, cik, path, parts);
    } else if ArchiveParts(path, url).Some? {
      PartsIff(path, url, ArchiveParts(path, url).value);
      SameMatch(path, Decimal(cik), d, document, ArchiveParts(path, url).value);
    }
  }

  /** A first segment of two dots is unsafe. */
  lemma ClimbsFirst(up: string, slash: string, rest: string)
    requires up == ".." && slash == "/"
    ensures !SafePath(up + slash + rest)
  {
    SplitAtSeparator(up, slash, rest);
    assert Split(up + slash + rest, slash)[0] == up;
  }

  lemma ClimbingDocument(document: string)
    requires document == "../a"
    ensures ReadableDocument(document) && !SafeDocument(document)
  {
    assert document[0] == '.' && document[|document| - 1] == 'a';
    assert document == ".." + "/" + "a";
    ClimbsFirst("..", "/", "a");
  }

  /** A document path that climbs is printed and read back, and the validator refuses it. */
  lemma ClimbingPathRefused(cik: nat, d: string)
    requires cik <= MAX_CIK && IsAccessionDigits(d)
    ensures var document := "../a";
            var url := PrintedUrl(cik, d, document);
            && ParseArchiveUrl(url) == Some(Parts(url, Decimal(cik), d, document))
            && ValidateArchiveUrl(url, d, None, DEFAULT_POLICY).Failure?
  {
    var document := "../a";
    ClimbingDocument(document);
    ParsePrintedIff(cik, d, document);
    ValidatePrintedIff(cik, d, document, d, None);
  }

  lemma PrintedSplit(cik: nat, d: string, document: string, url: string, path: string)
    requires url == PrintedUrl(cik, d, document)
    requires path == ARCHIVE_PATH_PREFIX + Decimal(cik) + "/" + d + "/" + document
    ensures UrlSplit(url).path == path && AllowedOrigin(UrlSplit(url), DEFAULT_POLICY)
    ensures url != ""
  {
    OriginThenPath(SEC_ORIGIN, ARCHIVE_PATH_PREFIX, Decimal(cik), d, document);
    SplitSecUrl(path);
  }

  lemma OriginThenPath(origin: string, p: string, cik: string, d: string, document: string)
    requires p != ""
    ensures var path := p + cik + "/" + d + "/" + document;
            origin + p + cik + "/" + d + "/" + document == origin + path && path != "" && path[0] == p[0]
  {}

  /** A well-placed URL whose parts name the expected accession and CIK is accepted. */
  lemma ExpectedAccepts(url: string, accession: string, d: string, expectedCik: Option<RawCik>, cik: nat,
                        path: string, parts: Parts)
    requires url != "" && Strip(url) == url && AllowedChars(url)
    requires UrlSplit(url).path == path && AllowedOrigin(UrlSplit(url), DEFAULT_POLICY) && SafePath(path)
    requires ArchiveParts(path, url) == Some(parts)
    requires FromAny(accession).Success? && Normalized(FromAny(accession).value) == parts.accession
    requires expectedCik.Some? ==> FromRaw(expectedCik.value) == Success(Cik(cik))
    requires IsDigits(parts.archiveCik) && DecimalValue(parts.archiveCik) == cik
    ensures ValidateArchiveUrl(url, accession, expectedCik, DEFAULT_POLICY) == Success(parts)
  {}

  lemma AcceptedIsTrimmed(url: string)
    requires AllowedChars(url)
    ensures Strip(url) == url
  {
    if url != "" {
      assert url[0] as int > 32 && url[|url| - 1] as int > 32;
    }
    StripTrimmed(url);
  }

  lemma SameMatch(path: string, cik: string, d: string, document: string, parts: Parts)
    requires PathMatches(path, parts.archiveCik, parts.accession, parts.documentPath)
    requires IsDigits(cik) && IsAccessionDigits(d) && path == ARCHIVE_PATH_PREFIX + cik + "/" + d + "/" + document
    ensures document == parts.documentPath
  {
    MatchIff(path, parts.archiveCik, parts.accession, parts.documentPath);
    Regroup(ARCHIVE_PATH_PREFIX, cik, d, document);
    PrefixCut(path, ARCHIVE_PATH_PREFIX, cik + "/" + (d + "/" + document));
    SegmentsIff(path[|ARCHIVE_PATH_PREFIX|..], cik, d, document);
  }

  lemma AuthoritySuffix(scheme: string, rest: string)
    ensures |SplitAuthority(scheme, rest).path| <= |rest|
    ensures SplitAuthority(scheme, rest).path == rest[|rest| - |SplitAuthority(scheme, rest).path|..]
  {}

  lemma PathIsSuffix(url: string) returns (front: string)
    ensures url == front + UrlSplit(url).path
  {
    var colon := FirstOf(url, {':'});
    AuthoritySuffix("", url);
    if colon < |url| {
      AuthoritySuffix(Lower(url[..colon]), url[colon + 1..]);
    }
    front := url[..|url| - |UrlSplit(url).path|];
  }

  lemma SafeInSafePath(url: string, path: string, front: string, cik: string, d: string, document: string)
    requires AllowedChars(url) && url == front + path && SafePath(path)
    requires IsDigits(cik) && IsDigits(d) && document != ""
    requires path == ARCHIVE_PATH_PREFIX + cik + "/" + d + "/" + document
    ensures SafeDocument(document)
  {
    PrintedPathSafe(cik, d, document);
    AllowedConcat(front, path);
    AllowedConcat(ARCHIVE_PATH_PREFIX + cik + "/" + d + "/", document);
  }

  /** Whatever the validator accepts is inside the expected accession and CIK and safe. */
  lemma AcceptedIsScoped(url: string, accession: string, expectedCik: Option<RawCik>, policy: Policy)
    requires ValidateArchiveUrl(url, accession, expectedCik, policy).Success?
    ensures var p := ValidateArchiveUrl(url, accession, expectedCik, policy).value;
            && p.url == url && p.accession == AccessionDigits(accession) && IsAccessionDigits(p.accession)
            && SafeDocument(p.documentPath)
            && IsDigits(p.archiveCik)
            && (expectedCik.Some? ==> FromRaw(expectedCik.value) == FromRaw(Written(p.archiveCik)))
            && AllowedOrigin(UrlSplit(url), policy)
            && UrlSplit(url).path == ARCHIVE_PATH_PREFIX + p.archiveCik + "/" + p.accession + "/" + p.documentPath
  {
    var p := ValidateArchiveUrl(url, accession, expectedCik, policy).value;
    var path := UrlSplit(url).path;
    PartsIff(path, url, p);
    OneIdentityIffSameDigits(accession, accession);
    DigitsNameCik(p.archiveCik);
    var front := PathIsSuffix(url);
    SafeInSafePath(url, path, front, p.archiveCik, p.accession, p.documentPath);
    if expectedCik.Some? { MakeCikOf(expectedCik.value); }
  }

  lemma MakeCikOf(raw: RawCik)
    ensures FromRaw(raw).Success? ==> FromRaw(raw) == MakeCik(FromRaw(raw).value.value)
  {}

  /** The parser is syntax only; what it reads from the SEC base and the validator accepts
      is the same record. */
  lemma ParserAndValidatorAgree(url: string, accession: string, expectedCik: Option<RawCik>, policy: Policy)
    requires SEC_ARCHIVE_BASE + "/" <= url && ValidateArchiveUrl(url, accession, expectedCik, policy).Success?
    ensures ParseArchiveUrl(url) == Some(ValidateArchiveUrl(url, accession, expectedCik, policy).value)
  {
    OriginFirst(url);
    var path := url[|SEC_ORIGIN|..];
    PathStartsWithSlash(url);
    SplitSecUrl(path);
  }

  lemma PathStartsWithSlash(url: string)
    requires SEC_ARCHIVE_BASE + "/" <= url
    ensures url[|SEC_ORIGIN|..] != "" && url[|SEC_ORIGIN|..][0] == '/'
  {
    var base := SEC_ARCHIVE_BASE + "/";
    assert url[|SEC_ORIGIN|] == base[|SEC_ORIGIN|];
  }
}
