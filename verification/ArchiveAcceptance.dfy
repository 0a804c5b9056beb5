/** What the archive validator accepts, said of the characters of the URL
    (edgar_sec/domain/sec_urls.py:207-261). */
module ArchiveAcceptance {
  import opened Common
  import opened Text
  import opened Identity
  import opened ArchiveUrl

  // ------------------------------------------------------------------- path segments

  /** `path[i..j]` runs from one slash, or the start, to the next, or the end. */
  predicate Bounded(path: string, i: int, j: int) {
    && 0 <= i <= j <= |path|
    && (i == 0 || path[i - 1] == '/') && (j == |path| || path[j] == '/')
  }

  /** No segment is one or two dots. */
  ghost predicate NoDotSegment(path: string) {
    forall i, j :: Bounded(path, i, j) ==> path[i..j] != "." && path[i..j] != ".."
  }

  predicate Dots(s: string) {
    s == "." || s == ".."
  }

  lemma SliceBehind(path: string, n: nat, i: nat, j: nat)
    requires n + j <= |path| && i <= j
    ensures path[n..][i..j] == path[n + i..n + j]
  {}

  /** The first segment, and the others behind its slash. */
  lemma SegmentsBehind(path: string, n: nat)
    requires n < |path| && path[n] == '/' && '/' !in path[..n]
    ensures NoDotSegment(path) <==> !Dots(path[..n]) && NoDotSegment(path[n + 1..])
  {
    var rest := path[n + 1..];
    forall k | 0 <= k < n ensures path[k] != '/' {
      assert path[..n][k] == path[k];
    }
    if NoDotSegment(path) {
      assert Bounded(path, 0, n);
      forall i, j | Bounded(rest, i, j) ensures !Dots(rest[i..j]) {
        assert Bounded(path, n + 1 + i, n + 1 + j);
        SliceBehind(path, n + 1, i, j);
      }
    }
    if !Dots(path[..n]) && NoDotSegment(rest) {
      forall i, j | Bounded(path, i, j) ensures !Dots(path[i..j]) {
        if i > n {
          assert Bounded(rest, i - n - 1, j - n - 1);
          SliceBehind(path, n + 1, i - n - 1, j - n - 1);
        } else {
          assert j > n ==> path[i..j][n - i] == '/';
        }
      }
    }
  }

  lemma {:induction false} DotFreeIff(path: string)
    ensures DotFree(Split(path, "/")) <==> NoDotSegment(path)
    decreases |path|
  {
    match Find(path, "/") {
      case None =>
        forall i ensures 0 <= i < |path| ==> path[i] != '/' {
          assert !OccursAt(path, "/", i);
          assert 0 <= i < |path| ==> path[i..i + 1] == [path[i]];
        }
        assert Bounded(path, 0, |path|) && path[0..|path|] == path;
        forall i, j | Bounded(path, i, j) ensures path[i..j] == path {}
        assert Split(path, "/")[0] == path;
      case Some(n) =>
        assert path[n..n + 1] == [path[n]];
        forall i | 0 <= i < n ensures path[i] != '/' {
          assert !OccursAt(path, "/", i);
          assert path[i..i + 1] == [path[i]];
        }
        SegmentsBehind(path, n);
        DotFreeIff(path[n + 1..]);
        DotFreeFront(path[..n], Split(path[n + 1..], "/"));
    }
  }

  lemma DotFreeFront(first: string, rest: seq<string>)
    ensures DotFree([first] + rest) <==> !Dots(first) && DotFree(rest)
  {
    var all := [first] + rest;
    assert all[0] == first && forall i :: 0 <= i < |rest| ==> all[i + 1] == rest[i];
    if DotFree(all) {
      forall i | 0 <= i < |rest| ensures rest[i] != "." && rest[i] != ".." {
        assert all[i + 1] == rest[i];
      }
    }
  }

  /** No percent sign, backslash, empty segment or dot segment. */
  ghost predicate CleanPath(path: string) {
    && (forall i :: 0 <= i < |path| ==> path[i] != '%' && path[i] != '\\')
    && (forall i :: 0 <= i < |path| - 1 ==> path[i] != '/' || path[i + 1] != '/')
    && NoDotSegment(path)
  }

  lemma SafePathIff(path: string)
    ensures SafePath(path) <==> CleanPath(path)
  {
    FindDouble(path, "//", '/');
    assert (forall i :: !DoubleAt(path, '/', i)) <==>
           (forall i :: 0 <= i < |path| - 1 ==> path[i] != '/' || path[i + 1] != '/') by {
      if forall i :: !DoubleAt(path, '/', i) {
        forall i | 0 <= i < |path| - 1 ensures path[i] != '/' || path[i + 1] != '/' {
          assert !DoubleAt(path, '/', i);
        }
      }
    }
    DotFreeIff(path);
  }

  // -------------------------------------------------------------------------- origin

  predicate IsSchemeText(s: string) {
    && s != "" && ('a' <= s[0] <= 'z' || 'A' <= s[0] <= 'Z')
    && (forall i :: 0 <= i < |s| ==>
          || 'a' <= s[i] <= 'z' || 'A' <= s[i] <= 'Z' || '0' <= s[i] <= '9'
          || s[i] == '+' || s[i] == '-' || s[i] == '.')
  }

  predicate IsHostText(s: string) {
    s != "" && forall i :: 0 <= i < |s| ==> s[i] != '/' && s[i] != ':' && s[i] != '@' && s[i] != '[' && s[i] != ']'
  }

  /** The URL is a scheme and host of the policy, in any letter case, perhaps the colon of
      an absent port, and the path; there is no user information and no port. */
  ghost predicate Located(url: string, policy: Policy, scheme: string, host: string, colon: string, path: string) {
    && url == scheme + ":" + ("//" + (host + colon) + path)
    && IsSchemeText(scheme) && IsHostText(host) && (colon == "" || colon == ":")
    && (path == "" || path[0] == '/')
    && Lower(scheme) in policy.schemes && Lower(host) in policy.hosts
  }

  lemma AuthorityOf(scheme: string, slashes: string, netloc: string, path: string)
    requires slashes == "//" && '/' !in netloc && (path == "" || path[0] == '/')
    ensures SplitAuthority(scheme, slashes + netloc + path) == Split3(scheme, Some(netloc), path)
  {
    var rest := slashes + netloc + path;
    FirstOfAt(netloc, path, {'/'});
    assert slashes <= rest && rest[2..] == netloc + path;
    assert (netloc + path)[..|netloc|] == netloc && (netloc + path)[|netloc|..] == path;
  }

  lemma HostOf(host: string, colon: string)
    requires IsHostText(host) && (colon == "" || colon == ":")
    ensures PlainHost(host + colon) == Some(Lower(host))
  {
    FirstOfAt(host, colon, {':'});
    assert (host + colon)[..|host|] == host;
  }

  lemma LocatedIsAllowed(url: string, policy: Policy, scheme: string, host: string, colon: string, path: string)
    requires Located(url, policy, scheme, host, colon, path)
    ensures AllowedOrigin(UrlSplit(url), policy) && UrlSplit(url).path == path
  {
    SplitAtScheme(scheme, ":", "//" + (host + colon) + path);
    AuthorityOf(Lower(scheme), "//", host + colon, path);
    HostOf(host, colon);
  }

  lemma NetlocParts(netloc: string) returns (host: string, colon: string)
    requires PlainHost(netloc).Some? && '/' !in netloc
    ensures netloc == host + colon && IsHostText(host) && (colon == "" || colon == ":")
    ensures PlainHost(netloc) == Some(Lower(host))
  {
    var n := FirstOf(netloc, {':'});
    host, colon := netloc[..n], netloc[n..];
    assert netloc == host + colon;
    assert forall i :: 0 <= i < n ==> netloc[i] in netloc;
    assert n < |netloc| ==> colon == [netloc[n]];
  }

  lemma CutAt(rest: string, slashes: string, n: nat)
    requires slashes <= rest && n <= |rest[|slashes|..]|
    ensures rest == slashes + rest[|slashes|..][..n] + rest[|slashes|..][n..]
  {}

  lemma AuthorityParts(scheme: string, rest: string) returns (netloc: string)
    requires SplitAuthority(scheme, rest).netloc.Some?
    ensures SplitAuthority(scheme, rest).netloc == Some(netloc) && SplitAuthority(scheme, rest).scheme == scheme
    ensures rest == "//" + netloc + SplitAuthority(scheme, rest).path && '/' !in netloc
    ensures var path := SplitAuthority(scheme, rest).path; path == "" || path[0] == '/'
  {
    var slash := FirstOf(rest[2..], {'/'});
    netloc := rest[2..][..slash];
    CutAt(rest, "//", slash);
  }

  lemma SchemeParts(url: string) returns (scheme: string, rest: string)
    requires UrlSplit(url).scheme != ""
    ensures url == scheme + ":" + rest && IsSchemeText(scheme)
    ensures UrlSplit(url) == SplitAuthority(Lower(scheme), rest)
  {
    var n := FirstOf(url, {':'});
    assert n < |url| && IsPlainScheme(url[..n]);
    scheme, rest := url[..n], url[n + 1..];
    assert url == scheme + [url[n]] + rest;
  }

  lemma AllowedIsLocated(url: string, policy: Policy) returns (scheme: string, host: string, colon: string)
    requires AllowedOrigin(UrlSplit(url), policy) && "" !in policy.schemes
    ensures Located(url, policy, scheme, host, colon, UrlSplit(url).path)
  {
    var rest;
    scheme, rest := SchemeParts(url);
    var netloc := AuthorityParts(Lower(scheme), rest);
    host, colon := NetlocParts(netloc);
  }

  // ----------------------------------------------------------------------- acceptance

  /** Nothing at or below the space, no DEL, no query and no fragment mark. */
  ghost predicate CleanChars(url: string) {
    forall i :: 0 <= i < |url| ==> url[i] as int > 32 && url[i] as int != 127 && url[i] != '?' && url[i] != '#'
  }

  /** The path names the parts, and they are the expected ones. */
  ghost predicate Names(path: string, p: Parts, accession: string, expectedCik: Option<RawCik>) {
    && path == "/Archives/edgar/data/" + p.archiveCik + "/" + p.accession + "/" + p.documentPath
    && IsDigits(p.archiveCik) && IsAccessionDigits(p.accession) && p.documentPath != ""
    && FromAny(accession) == Success(Accession(Hyphenate(p.accession)))
    && (expectedCik.Some? ==> FromRaw(expectedCik.value) == Success(Cik(DecimalValue(p.archiveCik))))
  }

  /** One way of reading the URL under the policy. */
  ghost predicate Reads(url: string, policy: Policy, path: string) {
    exists scheme, host, colon :: Located(url, policy, scheme, host, colon, path)
  }

  lemma AllowedIff(url: string, policy: Policy, path: string)
    requires "" !in policy.schemes
    ensures Reads(url, policy, path) <==> AllowedOrigin(UrlSplit(url), policy) && UrlSplit(url).path == path
  {
    if scheme, host, colon :| Located(url, policy, scheme, host, colon, path) {
      LocatedIsAllowed(url, policy, scheme, host, colon, path);
    }
    if AllowedOrigin(UrlSplit(url), policy) {
      var scheme, host, colon := AllowedIsLocated(url, policy);
    }
  }

  lemma DocumentHasNoBreak(url: string, front: string, before: string, document: string)
    requires CleanChars(url) && url == front + (before + document)
    ensures '\n' !in document
  {
    forall i | 0 <= i < |document| ensures document[i] != '\n' {
      assert url[|front| + |before| + i] == document[i];
      assert url[|front| + |before| + i] as int > 32;
    }
  }

  /** A document behind a slash of a clean path is not only slashes. */
  lemma DocumentIsNotSlashes(path: string, before: string, document: string)
    requires CleanPath(path) && path == before + "/" + document && document != ""
    ensures !OnlySlashes(document)
  {
    assert path[|before|] == '/' && path[|before| + 1] == document[0];
  }

  lemma NamedParts(url: string, path: string, p: Parts, accession: string, expectedCik: Option<RawCik>)
    requires CleanChars(url) && CleanPath(path) && p.url == url
    requires UrlSplit(url).path == path && Names(path, p, accession, expectedCik)
    ensures ArchiveParts(path, url) == Some(p)
  {
    var front := PathIsSuffix(url);
    var start := ARCHIVE_PATH_PREFIX + p.archiveCik + "/" + p.accession;
    assert path == start + "/" + p.documentPath;
    assert url == front + (start + "/" + p.documentPath);
    DocumentHasNoBreak(url, front, start + "/", p.documentPath);
    DocumentIsNotSlashes(path, start, p.documentPath);
    PartsIff(path, url, p);
  }

  lemma ExpectedIff(accession: string, d: string)
    requires AllDigits(d)
    ensures FromAny(accession).Success? && Normalized(FromAny(accession).value) == d <==>
              IsAccessionDigits(d) && FromAny(accession) == Success(Accession(Hyphenate(d)))
  {
    if FromAny(accession).Success? {
      OneIdentityIffSameDigits(accession, accession);
      FromAnyByDigits(accession);
    }
    if IsAccessionDigits(d) { HyphenateDigits(d); }
  }

  lemma CleanCharsIff(url: string)
    ensures AllowedChars(url) <==> CleanChars(url)
    ensures CleanChars(url) ==> Strip(url) == url
  {
    if AllowedChars(url) { AcceptedIsTrimmed(url); }
  }

  /** The URL has clean characters, is a scheme and host of the policy followed by a clean
      path, and the path names the parts with the expected accession and CIK. */
  ghost predicate Acceptable(url: string, accession: string, expectedCik: Option<RawCik>, policy: Policy, p: Parts,
                             path: string) {
    && p.url == url && CleanChars(url)
    && Reads(url, policy, path) && CleanPath(path) && Names(path, p, accession, expectedCik)
  }

  lemma AcceptedIsAcceptable(url: string, accession: string, expectedCik: Option<RawCik>, policy: Policy, p: Parts)
    requires "" !in policy.schemes && ValidateArchiveUrl(url, accession, expectedCik, policy) == Success(p)
    ensures Acceptable(url, accession, expectedCik, policy, p, UrlSplit(url).path)
  {
    var path := UrlSplit(url).path;
    CleanCharsIff(url);
    AllowedIff(url, policy, path);
    SafePathIff(path);
    PartsIff(path, url, p);
    ExpectedIff(accession, p.accession);
  }

  lemma AcceptableIsAccepted(url: string, accession: string, expectedCik: Option<RawCik>, policy: Policy, p: Parts,
                             path: string)
    requires "" !in policy.schemes && Acceptable(url, accession, expectedCik, policy, p, path)
    ensures ValidateArchiveUrl(url, accession, expectedCik, policy) == Success(p)
  {
    CleanCharsIff(url);
    AllowedIff(url, policy, path);
    SafePathIff(path);
    ExpectedIff(accession, p.accession);
    NamedParts(url, path, p, accession, expectedCik);
    ReadableIsNonempty(url, policy, path);
  }

  /** The validator returns the parts exactly when the URL is acceptable for them. */
  lemma AcceptedIff(url: string, accession: string, expectedCik: Option<RawCik>, policy: Policy, p: Parts)
    requires "" !in policy.schemes
    ensures ValidateArchiveUrl(url, accession, expectedCik, policy) == Success(p) <==>
              exists path :: Acceptable(url, accession, expectedCik, policy, p, path)
  {
    if ValidateArchiveUrl(url, accession, expectedCik, policy) == Success(p) {
      AcceptedIsAcceptable(url, accession, expectedCik, policy, p);
    }
    if path :| Acceptable(url, accession, expectedCik, policy, p, path) {
      AcceptableIsAccepted(url, accession, expectedCik, policy, p, path);
    }
  }

  lemma ReadableIsNonempty(url: string, policy: Policy, path: string)
    requires Reads(url, policy, path)
    ensures url != ""
  {}

  /** Whatever is accepted has no percent sign in its path. */
  lemma PercentRefused(url: string, accession: string, expectedCik: Option<RawCik>, policy: Policy)
    requires '%' in UrlSplit(url).path
    ensures ValidateArchiveUrl(url, accession, expectedCik, policy).Failure?
  {
    SafePathIff(UrlSplit(url).path);
  }

  lemma SchemeIff(x: string)
    ensures IsScheme(Lower(x)) <==> IsSchemeText(x)
  {
    var y := Lower(x);
    if IsScheme(y) {
      forall i | 0 <= i < |x| ensures IsSchemeChar(x[i]) {
        assert IsSchemeChar(y[i]);
      }
    }
  }

  /** A policy needs a scheme and a host; each scheme begins with a letter and holds
      letters, digits, `+`, `-` and `.`; no host is empty or holds a slash, colon or at. */
  lemma PolicyIff(schemes: set<string>, hosts: set<string>)
    ensures MakePolicy(schemes, hosts).Success? <==>
              && schemes != {} && hosts != {} && (forall x :: x in schemes ==> IsSchemeText(x))
              && (forall x :: x in hosts ==> x != "" && '/' !in x && ':' !in x && '@' !in x)
  {
    var s := set x | x in schemes :: Lower(x);
    var h := set x | x in hosts :: Lower(x);
    forall x ensures IsScheme(Lower(x)) <==> IsSchemeText(x) { SchemeIff(x); }
    forall x, c | c == '/' || c == ':' || c == '@' ensures c in Lower(x) <==> c in x { MarkIff(x, c); }
    if x :| x in schemes { assert Lower(x) in s; }
    if x :| x in hosts { assert Lower(x) in h; }
    assert forall x :: x in schemes ==> Lower(x) in s;
    assert forall x :: x in hosts ==> Lower(x) in h;
  }

  lemma MarkIff(x: string, c: char)
    requires c == '/' || c == ':' || c == '@'
    ensures c in Lower(x) <==> c in x
  {
    var y := Lower(x);
    if c in y {
      var i :| 0 <= i < |y| && y[i] == c;
      assert x[i] == c;
    }
    if c in x {
      var i :| 0 <= i < |x| && x[i] == c;
      assert y[i] == c;
    }
  }
}
