/** Splitting a merged word into vocabulary pieces: memoised longest match with
    backtracking (edgar_sec/apps/client/catalog.py:305-350). */
module Segmentation {
  import opened Common

  datatype Vocabulary = Vocabulary(words: set<string>, attested: set<string>)
  {
    predicate Lists(piece: string) {
      piece in words || (|piece| >= 4 && piece in attested)
    }

    /** `accepted`: a listed piece, or one with a plural `s` added. */
    predicate Accepts(piece: string) {
      Lists(piece) || (|piece| >= 3 && piece[|piece| - 1] == 's' && Lists(piece[..|piece| - 1]))
    }
  }

  const STOP_WORDS: set<string> :=
    {"a", "an", "and", "at", "by", "for", "from", "in", "of", "on", "or", "per", "the", "to", "with"}

  /** What a piece may be: a lexicon or stop word, an attested token of four characters or
      more, or either with an `s` behind it, of three characters or more together. */
  lemma PieceMeans(v: Vocabulary, piece: string)
    ensures v.Accepts(piece) <==>
              || piece in v.words || (piece in v.attested && |piece| > 3)
              || exists base ::
                   piece == base + "s" && |base| > 1 && (base in v.words || (base in v.attested && |base| > 3))
  {
    if piece != "" && piece[|piece| - 1] == 's' {
      assert piece == piece[..|piece| - 1] + "s";
    }
    forall base | piece == base + "s" ensures piece[..|piece| - 1] == base && piece[|piece| - 1] == 's' {}
  }

  /** The stop words are fifteen. */
  lemma StopWordList(word: string)
    ensures word in STOP_WORDS <==>
              word in ["a", "an", "and", "at", "by", "for", "from", "in", "of", "on", "or", "per", "the", "to", "with"]
  {}

  // -------------------------------------------------------------------- splits

  function Concat(pieces: seq<string>): string {
    if pieces == [] then "" else pieces[0] + Concat(pieces[1..])
  }

  predicate PieceOk(v: Vocabulary, piece: string) {
    piece != "" && v.Accepts(piece)
  }

  /** The pieces are accepted and spell `rest`; under `proper` they are not `rest` in
      one piece. */
  ghost predicate IsSplit(v: Vocabulary, rest: string, proper: bool, pieces: seq<string>) {
    && Concat(pieces) == rest
    && (forall i :: 0 <= i < |pieces| ==> PieceOk(v, pieces[i]))
    && (proper ==> |pieces| != 1)
  }

  /** Where the two splits first differ, `p` takes the longer piece. */
  predicate GreedierOrSame(p: seq<string>, q: seq<string>) {
    p == q || (p != [] && q != [] && (|p[0]| > |q[0]| || (p[0] == q[0] && GreedierOrSame(p[1..], q[1..]))))
  }

  ghost predicate IsGreediest(v: Vocabulary, rest: string, proper: bool, p: seq<string>) {
    IsSplit(v, rest, proper, p) && (forall q :: IsSplit(v, rest, proper, q) ==> GreedierOrSame(p, q))
  }

  ghost predicate Splittable(v: Vocabulary, rest: string, proper: bool) {
    exists q :: IsSplit(v, rest, proper, q)
  }

  lemma {:induction false} GreediestUnique(p: seq<string>, q: seq<string>)
    requires GreedierOrSame(p, q) && GreedierOrSame(q, p)
    ensures p == q
  {
    if p != [] && q != [] && GreedierOrSame(p[1..], q[1..]) && GreedierOrSame(q[1..], p[1..]) {
      GreediestUnique(p[1..], q[1..]);
      assert p == [p[0]] + p[1..] && q == [q[0]] + q[1..];
    }
  }

  // ------------------------------------------------- the search without a memo

  /** The search from a position, `rest` being what follows it. */
  function Longest(v: Vocabulary, rest: string, proper: bool): Option<seq<string>>
    decreases |rest|, |rest| + 1
  {
    if rest == "" then Some([]) else TryLengths(v, rest, if proper then |rest| - 1 else |rest|)
  }

  /** The pieces of length `n` and below, longest first. */
  function TryLengths(v: Vocabulary, rest: string, n: nat): Option<seq<string>>
    requires n <= |rest|
    decreases |rest|, n
  {
    if n == 0 then None
    else if v.Accepts(rest[..n]) && Longest(v, rest[n..], false).Some?
    then Some([rest[..n]] + Longest(v, rest[n..], false).value)
    else TryLengths(v, rest, n - 1)
  }

  /** Splits whose first piece is at most `n` long. */
  ghost predicate StartsWithin(q: seq<string>, n: nat) {
    q != [] && |q[0]| <= n
  }

  lemma SplitTail(v: Vocabulary, rest: string, q: seq<string>)
    requires IsSplit(v, rest, false, q) && q != []
    ensures 0 < |q[0]| <= |rest| && q[0] == rest[..|q[0]|]
    ensures IsSplit(v, rest[|q[0]|..], false, q[1..]) && v.Accepts(q[0])
  {
    assert PieceOk(v, q[0]);
    forall i | 0 <= i < |q[1..]| ensures PieceOk(v, q[1..][i]) {
      assert PieceOk(v, q[i + 1]);
    }
  }

  lemma SplitCons(v: Vocabulary, rest: string, n: nat, tail: seq<string>)
    requires 0 < n <= |rest| && v.Accepts(rest[..n]) && IsSplit(v, rest[n..], false, tail)
    ensures IsSplit(v, rest, false, [rest[..n]] + tail)
  {
    var p := [rest[..n]] + tail;
    assert p[1..] == tail && rest == rest[..n] + rest[n..];
    forall i | 0 <= i < |p| ensures PieceOk(v, p[i]) {
      if i > 0 { assert PieceOk(v, tail[i - 1]); }
    }
  }

  lemma SplitNonempty(v: Vocabulary, rest: string, q: seq<string>)
    requires IsSplit(v, rest, false, q) && q != []
    ensures rest != ""
  {
    assert PieceOk(v, q[0]);
  }

  lemma EmptySplit(v: Vocabulary, q: seq<string>)
    requires IsSplit(v, "", false, q)
    ensures q == []
  {
    if q != [] { SplitNonempty(v, "", q); }
  }

  /** The search result for the splits starting with at most `n` characters. */
  ghost predicate BestWithin(v: Vocabulary, rest: string, n: nat, q: seq<string>, r: Option<seq<string>>) {
    && (r.Some? ==> IsSplit(v, rest, false, r.value) && StartsWithin(r.value, n))
    && (IsSplit(v, rest, false, q) && StartsWithin(q, n) ==> r.Some? && GreedierOrSame(r.value, q))
  }

  lemma {:induction false} TryLengthsGreediest(v: Vocabulary, rest: string, n: nat, q: seq<string>)
    requires n <= |rest|
    ensures BestWithin(v, rest, n, q, TryLengths(v, rest, n))
    decreases |rest|, n
  {
    if IsSplit(v, rest, false, q) && q != [] { SplitTail(v, rest, q); }
    if n > 0 {
      var tail := if q == [] then [] else q[1..];
      LongestFrom(v, rest[n..], tail);
      TryLengthsGreediest(v, rest, n - 1, q);
      LengthStep(v, rest, n, q, tail);
    }
  }

  lemma LengthStep(v: Vocabulary, rest: string, n: nat, q: seq<string>, tail: seq<string>)
    requires 0 < n <= |rest| && tail == if q == [] then [] else q[1..]
    requires BestFrom(v, rest[n..], tail) && BestWithin(v, rest, n - 1, q, TryLengths(v, rest, n - 1))
    ensures BestWithin(v, rest, n, q, TryLengths(v, rest, n))
  {
    var r := TryLengths(v, rest, n);
    if v.Accepts(rest[..n]) && Longest(v, rest[n..], false).Some? {
      SplitCons(v, rest, n, Longest(v, rest[n..], false).value);
      assert r.value[1..] == Longest(v, rest[n..], false).value;
      if IsSplit(v, rest, false, q) && StartsWithin(q, n) {
        SplitTail(v, rest, q);
      }
    } else if IsSplit(v, rest, false, q) && StartsWithin(q, n) {
      SplitTail(v, rest, q);
      assert StartsWithin(q, n - 1);
    }
  }

  ghost predicate BestFrom(v: Vocabulary, rest: string, q: seq<string>) {
    var r := Longest(v, rest, false);
    && (r.Some? ==> IsSplit(v, rest, false, r.value))
    && (IsSplit(v, rest, false, q) ==> r.Some? && GreedierOrSame(r.value, q))
  }

  lemma {:induction false} LongestFrom(v: Vocabulary, rest: string, q: seq<string>)
    ensures BestFrom(v, rest, q)
    decreases |rest|, |rest| + 1
  {
    if rest == "" {
      if IsSplit(v, rest, false, q) { EmptySplit(v, q); }
    } else {
      TryLengthsGreediest(v, rest, |rest|, q);
      if IsSplit(v, rest, false, q) { SplitTail(v, rest, q); }
    }
  }

  lemma ProperMeansShorterFirst(v: Vocabulary, rest: string, q: seq<string>)
    requires rest != "" && IsSplit(v, rest, false, q)
    ensures q != []
    ensures |q| != 1 <==> |q[0]| < |rest|
  {
    SplitTail(v, rest, q);
    if |q| != 1 {
      SplitTail(v, rest[|q[0]|..], q[1..]);
    }
    if |q[0]| == |rest| {
      EmptySplit(v, q[1..]);
    }
    if |q| == 1 {
      assert q[1..] == [];
    }
  }

  /** The search returns the greediest split, and fails exactly when there is none. */
  lemma LongestIsGreediest(v: Vocabulary, rest: string, proper: bool)
    ensures Longest(v, rest, proper).Some? <==> Splittable(v, rest, proper)
    ensures Longest(v, rest, proper).Some? ==> IsGreediest(v, rest, proper, Longest(v, rest, proper).value)
  {
    var r := Longest(v, rest, proper);
    var n := if rest == "" then 0 else if proper then |rest| - 1 else |rest|;
    if r.Some? {
      if rest != "" {
        TryLengthsGreediest(v, rest, n, []);
        ProperMeansShorterFirst(v, rest, r.value);
      }
      assert IsSplit(v, rest, proper, r.value);
    }
    forall q | IsSplit(v, rest, proper, q) ensures r.Some? && GreedierOrSame(r.value, q) {
      if rest == "" {
        EmptySplit(v, q);
      } else {
        ProperMeansShorterFirst(v, rest, q);
        TryLengthsGreediest(v, rest, n, q);
        SplitTail(v, rest, q);
      }
    }
  }

  /** A word that is itself accepted is its own greediest split once whole words are
      admitted; otherwise admitting them changes nothing. */
  lemma WholeWordsOnlyAddThemselves(v: Vocabulary, word: string)
    requires word != ""
    ensures Longest(v, word, false) == if v.Accepts(word) then Some([word]) else Longest(v, word, true)
  {
    var n := |word|;
    assert word[..n] == word && word[n..] == "";
    assert Longest(v, word[n..], false) == Some([]);
    assert [word] + [] == [word];
    assert TryLengths(v, word, n) == if v.Accepts(word) then Some([word]) else TryLengths(v, word, n - 1);
  }

  // -------------------------------------------------------------- the memo table

  type Key = (nat, bool)

  ghost predicate EntryCorrect(v: Vocabulary, word: string, key: Key, entry: Option<seq<string>>) {
    key.0 <= |word| && entry == Longest(v, word[key.0..], key.1)
  }

  /** The closure state of `from_pos`. */
  class Segmenter {
    const word: string
    const vocabulary: Vocabulary
    var memo: map<Key, Option<seq<string>>>

    ghost predicate Valid()
      reads this
    {
      forall key :: key in memo ==> EntryCorrect(vocabulary, word, key, memo[key])
    }

    constructor (word: string, vocabulary: Vocabulary)
      ensures Valid() && this.word == word && this.vocabulary == vocabulary && memo == map[]
    {
      this.word, this.vocabulary, this.memo := word, vocabulary, map[];
    }

    /** `from_pos`: the memoised search agrees with the search without a memo, and
        forgets nothing it has computed. */
    method FromPos(pos: nat, first: bool) returns (result: Option<seq<string>>)
      requires Valid() && pos <= |word|
      modifies this
      ensures Valid() && result == Longest(vocabulary, word[pos..], first)
      ensures old(memo.Keys) <= memo.Keys && (pos < |word| ==> (pos, first) in memo)
      decreases |word| - pos
    {
      if pos == |word| {
        return Some([]);
      }
      var key := (pos, first);
      if key in memo {
        assert EntryCorrect(vocabulary, word, key, memo[key]);
        return memo[key];
      }
      ghost var rest := word[pos..];
      result := None;
      var end := |word| - pos - (if first then 1 else 0);
      ghost var longest := end;
      while end > 0
        invariant Valid() && old(memo.Keys) <= memo.Keys && 0 <= end <= longest
        invariant result.None?
        invariant TryLengths(vocabulary, rest, end) == TryLengths(vocabulary, rest, longest)
      {
        var piece := word[pos..pos + end];
        assert piece == rest[..end] && word[pos + end..] == rest[end..];
        if vocabulary.Accepts(piece) {
          var tail := FromPos(pos + end, false);
          if tail.Some? {
            result := Some([piece] + tail.value);
            break;
          }
        }
        end := end - 1;
      }
      assert result == Longest(vocabulary, rest, first);
      assert EntryCorrect(vocabulary, word, key, result);
      memo := memo[key := result];
    }
  }

  // ------------------------------------------------------------- whole operation

  predicate AllStopWords(pieces: seq<string>) {
    forall i :: 0 <= i < |pieces| ==> pieces[i] in STOP_WORDS
  }

  /** Two pieces or more, at least one of them not a stop word. */
  predicate Admissible(pieces: seq<string>) {
    |pieces| >= 2 && !AllStopWords(pieces)
  }

  /** The search's split when admissible. */
  ghost function Segmentation(word: string, v: Vocabulary, wholeOk: bool): Option<seq<string>> {
    match Longest(v, word, !wholeOk)
    case Some(p) => if Admissible(p) then Some(p) else None
    case None => None
  }

  /** `_segment_word`: the greediest split if that one is admissible, else nothing. */
  method SegmentWord(word: string, vocabulary: Vocabulary, wholeOk: bool) returns (result: Option<seq<string>>)
    ensures result == Segmentation(word, vocabulary, wholeOk)
    ensures result.Some? ==> IsGreediest(vocabulary, word, !wholeOk, result.value) && Admissible(result.value)
    ensures result.None? ==> forall p :: IsGreediest(vocabulary, word, !wholeOk, p) ==> !Admissible(p)
  {
    var segmenter := new Segmenter(word, vocabulary);
    var pieces := segmenter.FromPos(0, !wholeOk);
    assert word[0..] == word;
    ghost var proper := !wholeOk;
    LongestIsGreediest(vocabulary, word, proper);
    if pieces.Some? {
      forall p | IsGreediest(vocabulary, word, proper, p) ensures p == pieces.value {
        GreediestUnique(p, pieces.value);
      }
    }
    if pieces.None? || |pieces.value| < 2 {
      return None;
    }
    if forall i :: 0 <= i < |pieces.value| ==> pieces.value[i] in STOP_WORDS {
      assert AllStopWords(pieces.value);
      return None;
    }
    return pieces;
  }

  /** Exactly when a word stays whole: it has no split into two pieces or more, its
      greediest such split is all stop words, or whole words are admitted and it is
      one. */
  lemma StaysWholeIff(word: string, v: Vocabulary, wholeOk: bool)
    ensures Segmentation(word, v, wholeOk).None? <==>
              || word == ""
              || (wholeOk && v.Accepts(word))
              || !Splittable(v, word, true)
              || (exists p :: IsGreediest(v, word, true, p) && AllStopWords(p))
  {
    LongestIsGreediest(v, word, true);
    var r := Longest(v, word, true);
    if word != "" {
      if wholeOk { WholeWordsOnlyAddThemselves(v, word); }
      if r.Some? {
        ProperMeansShorterFirst(v, word, r.value);
        forall p | IsGreediest(v, word, true, p) ensures p == r.value {
          GreediestUnique(p, r.value);
        }
      }
    }
  }

  lemma NotAPiece(v: Vocabulary, piece: string)
    requires v == Vocabulary(STOP_WORDS + {"don"}, {}) && piece == "andon"[..4]
    ensures !v.Accepts(piece)
  {
    assert piece == "ando" && piece[3] == 'o';
    assert |"with"| == 4 && |"from"| == 4 && "with"[0] == 'w' && "from"[0] == 'f';
  }

  /** An admissible split is not enough: the greediest one decides alone.  `andon` is
      `an don`, but `and on` comes first and is all stop words. */
  lemma AdmissibleSplitMissed()
    ensures var v := Vocabulary(STOP_WORDS + {"don"}, {});
            IsSplit(v, "andon", true, ["an", "don"]) && Admissible(["an", "don"])
            && Segmentation("andon", v, false).None?
  {
    var v := Vocabulary(STOP_WORDS + {"don"}, {});
    var word := "andon";
    var q := ["an", "don"];
    assert q[1..] == ["don"] && q[1..][1..] == [];
    assert Concat(q) == word;
    assert "don" in v.words && PieceOk(v, "an") && PieceOk(v, "don");
    assert q[1] !in STOP_WORDS;
    var p := ["and", "on"];
    assert p[1..] == ["on"] && p[1..][1..] == [];
    assert Concat(p) == word;
    assert PieceOk(v, "and") && PieceOk(v, "on");
    assert IsSplit(v, word, true, p) && IsSplit(v, word, true, q);
    LongestIsGreediest(v, word, true);
    var r := Longest(v, word, true).value;
    assert GreedierOrSame(r, p) && GreedierOrSame(r, q);
    SplitTail(v, word, r);
    ProperMeansShorterFirst(v, word, r);
    if |r[0]| == 4 {
      NotAPiece(v, r[0]);
    }
    assert r[0] == "and" && word[3..] == "on";
    assert GreedierOrSame(r[1..], p[1..]);
    SplitTail(v, "on", r[1..]);
    assert r[1] == "on";
    EmptySplit(v, r[1..][1..]);
    assert r == p;
  }
}
