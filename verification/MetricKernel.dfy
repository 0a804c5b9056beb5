/** The kernel's best-ranked facts per concept and year
    (edgar_sec/apps/client/kernel.py:310-373).  The span class of a fact and its period
    rank are parameters. */
module MetricKernel {
  import opened Common
  import opened Facts

  datatype Selection = Selection(instant: Option<bool>, lengthClass: string, monetaryOnly: bool)

  type Rank = (int, int)
  type Key = (string, string)

  /** Lexicographic order of Python pairs. */
  predicate Below(a: Rank, b: Rank) {
    a.0 < b.0 || (a.0 == b.0 && a.1 < b.1)
  }

  /** What the kernel knows about one filing. */
  datatype Filing = Filing(facts: seq<Fact>, spanClass: Fact -> string, periodRank: Fact -> Rank)

  // ------------------------------------------------------------------ one fact's slot

  function DateOf(fact: Fact, instant: Option<bool>): string {
    match instant
    case Some(true) => fact.instant
    case Some(false) => fact.end
    case None => if fact.instant != "" then fact.instant else fact.end
  }

  predicate Selected(filing: Filing, fact: Fact, sel: Selection) {
    && fact.dimensions == map[] && fact.value.Some?
    && !(sel.monetaryOnly && fact.unit in UNITS_EXCLUDED)
    && (fact.start != "" && fact.end != "" ==> filing.spanClass(fact) == sel.lengthClass)
    && DateOf(fact, sel.instant) != ""
  }

  function KeyOf(fact: Fact, sel: Selection): Key {
    (fact.concept, YearOf(DateOf(fact, sel.instant)))
  }

  predicate Fills(filing: Filing, fact: Fact, sel: Selection, key: Key) {
    Selected(filing, fact, sel) && KeyOf(fact, sel) == key
  }

  /** Among the first `n` facts, fact `i` has the highest rank for the key and is the
      first with that rank. */
  ghost predicate IsBestAt(filing: Filing, n: nat, sel: Selection, key: Key, i: int) {
    && n <= |filing.facts| && 0 <= i < n && Fills(filing, filing.facts[i], sel, key)
    && (forall j :: 0 <= j < n && Fills(filing, filing.facts[j], sel, key) ==>
          && !Below(filing.periodRank(filing.facts[i]), filing.periodRank(filing.facts[j]))
          && (j < i ==> Below(filing.periodRank(filing.facts[j]), filing.periodRank(filing.facts[i]))))
  }

  ghost predicate IsBest(filing: Filing, n: nat, sel: Selection, key: Key, rank: Rank, value: real) {
    exists i :: IsBestAt(filing, n, sel, key, i)
             && rank == filing.periodRank(filing.facts[i]) && value == filing.facts[i].value.value
  }

  ghost predicate Filled(filing: Filing, n: nat, sel: Selection, key: Key) {
    exists j :: 0 <= j < n <= |filing.facts| && Fills(filing, filing.facts[j], sel, key)
  }

  lemma BestIsOne(filing: Filing, n: nat, sel: Selection, key: Key, r: Rank, v: real, r': Rank, v': real)
    requires IsBest(filing, n, sel, key, r, v) && IsBest(filing, n, sel, key, r', v')
    ensures r == r' && v == v'
  {
    var i :| IsBestAt(filing, n, sel, key, i) && r == filing.periodRank(filing.facts[i])
        && v == filing.facts[i].value.value;
    var j :| IsBestAt(filing, n, sel, key, j) && r' == filing.periodRank(filing.facts[j])
        && v' == filing.facts[j].value.value;
    assert i == j;
  }

  // ------------------------------------------------------- a dictionary with its order

  /** A dictionary and its keys in insertion order. */
  datatype Ranked = Ranked(order: seq<Key>, table: map<Key, (Rank, real)>)

  /** The keys in the order their first facts appear. */
  function KeysInOrder(filing: Filing, n: nat, sel: Selection): seq<Key>
    requires n <= |filing.facts|
  {
    if n == 0 then []
    else
      var before := KeysInOrder(filing, n - 1, sel);
      var fact := filing.facts[n - 1];
      if Selected(filing, fact, sel) && KeyOf(fact, sel) !in before then before + [KeyOf(fact, sel)] else before
  }

  lemma {:induction false} KeysAreFilled(filing: Filing, n: nat, sel: Selection, key: Key)
    requires n <= |filing.facts|
    ensures key in KeysInOrder(filing, n, sel) <==> Filled(filing, n, sel, key)
  {
    if n > 0 {
      KeysAreFilled(filing, n - 1, sel, key);
      if Filled(filing, n - 1, sel, key) {
        var j :| 0 <= j < n - 1 && Fills(filing, filing.facts[j], sel, key);
      }
      if Fills(filing, filing.facts[n - 1], sel, key) {
        assert Filled(filing, n, sel, key);
      }
      if Filled(filing, n, sel, key) {
        var j :| 0 <= j < n && Fills(filing, filing.facts[j], sel, key);
        assert j < n - 1 ==> Filled(filing, n - 1, sel, key);
      }
    }
  }

  ghost predicate Distinct(order: seq<Key>) {
    forall i, j :: 0 <= i < j < |order| ==> order[i] != order[j]
  }

  lemma {:induction false} KeysDistinct(filing: Filing, n: nat, sel: Selection)
    requires n <= |filing.facts|
    ensures Distinct(KeysInOrder(filing, n, sel))
  {
    if n > 0 { KeysDistinct(filing, n - 1, sel); }
  }

  /** The best-ranked fact of every key that has one, keys in order of first appearance. */
  ghost predicate IsBestRanked(filing: Filing, n: nat, sel: Selection, best: Ranked) {
    && n <= |filing.facts|
    && best.order == KeysInOrder(filing, n, sel)
    && (forall key :: key in best.table <==> key in best.order)
    && (forall key :: key in best.table ==> IsBest(filing, n, sel, key, best.table[key].0, best.table[key].1))
  }

  lemma BestRankedUnique(filing: Filing, n: nat, sel: Selection, a: Ranked, b: Ranked)
    requires IsBestRanked(filing, n, sel, a) && IsBestRanked(filing, n, sel, b)
    ensures a == b
  {
    forall key | key in a.table ensures key in b.table && a.table[key] == b.table[key] {
      BestIsOne(filing, n, sel, key, a.table[key].0, a.table[key].1, b.table[key].0, b.table[key].1);
    }
    assert a.table.Keys == b.table.Keys;
  }

  // ------------------------------------------------------------------- one more fact

  lemma OtherKey(filing: Filing, n: nat, sel: Selection, key: Key, r: Rank, v: real)
    requires n < |filing.facts| && !Fills(filing, filing.facts[n], sel, key)
    requires IsBest(filing, n, sel, key, r, v)
    ensures IsBest(filing, n + 1, sel, key, r, v)
  {
    var i :| IsBestAt(filing, n, sel, key, i) && r == filing.periodRank(filing.facts[i])
        && v == filing.facts[i].value.value;
    assert IsBestAt(filing, n + 1, sel, key, i);
  }

  lemma NotBeaten(filing: Filing, n: nat, sel: Selection, key: Key, r: Rank, v: real)
    requires n < |filing.facts| && !Below(r, filing.periodRank(filing.facts[n]))
    requires IsBest(filing, n, sel, key, r, v)
    ensures IsBest(filing, n + 1, sel, key, r, v)
  {
    var i :| IsBestAt(filing, n, sel, key, i) && r == filing.periodRank(filing.facts[i])
        && v == filing.facts[i].value.value;
    assert IsBestAt(filing, n + 1, sel, key, i);
  }

  lemma Beaten(filing: Filing, n: nat, sel: Selection, key: Key, r: Rank, v: real)
    requires n < |filing.facts| && Fills(filing, filing.facts[n], sel, key)
    requires Below(r, filing.periodRank(filing.facts[n])) && IsBest(filing, n, sel, key, r, v)
    ensures IsBest(filing, n + 1, sel, key, filing.periodRank(filing.facts[n]), filing.facts[n].value.value)
  {
    assert IsBestAt(filing, n + 1, sel, key, n);
  }

  lemma FirstOfKey(filing: Filing, n: nat, sel: Selection, key: Key)
    requires n < |filing.facts| && Fills(filing, filing.facts[n], sel, key) && !Filled(filing, n, sel, key)
    ensures IsBest(filing, n + 1, sel, key, filing.periodRank(filing.facts[n]), filing.facts[n].value.value)
  {
    assert IsBestAt(filing, n + 1, sel, key, n);
  }

  // ------------------------------------------------------------------------ the kernel

  class Kernel {
    const filing: Filing
    var rankedCache: map<Selection, Ranked>
    var conceptCache: map<Selection, map<string, map<string, real>>>

    ghost predicate Valid()
      reads this
    {
      && (forall sel :: sel in rankedCache ==> IsBestRanked(filing, |filing.facts|, sel, rankedCache[sel]))
      && (forall sel :: sel in conceptCache ==> GroupsBest(filing, sel, conceptCache[sel]))
    }

    constructor (filing: Filing)
      ensures Valid() && this.filing == filing
    {
      this.filing := filing;
      this.rankedCache, this.conceptCache := map[], map[];
    }

    /** `best_ranked`: one scan, whose result later calls share. */
    method BestRanked(sel: Selection) returns (best: Ranked)
      requires Valid()
      modifies this`rankedCache
      ensures Valid() && IsBestRanked(filing, |filing.facts|, sel, best)
      ensures rankedCache == old(rankedCache)[sel := best]
    {
      if sel in rankedCache {
        assert rankedCache == rankedCache[sel := rankedCache[sel]];
        return rankedCache[sel];
      }
      best := Ranked([], map[]);
      for i := 0 to |filing.facts|
        invariant Valid() && rankedCache == old(rankedCache)
        invariant IsBestRanked(filing, i, sel, best)
      {
        var fact := filing.facts[i];
        ghost var before := best;
        if Selected(filing, fact, sel) {
          var key := KeyOf(fact, sel);
          var rank := filing.periodRank(fact);
          if key !in best.table {
            best := Ranked(best.order + [key], best.table[key := (rank, fact.value.value)]);
          } else if Below(best.table[key].0, rank) {
            best := best.(table := best.table[key := (rank, fact.value.value)]);
          }
        }
        NextFact(filing, i, sel, before, best);
      }
      rankedCache := rankedCache[sel := best];
    }

    /** `best_ranked_values`: one concept's slice. */
    method BestRankedValues(concept: string, sel: Selection) returns (values: map<string, real>)
      requires Valid()
      modifies this
      ensures Valid() && SliceIsBest(filing, sel, concept, values)
    {
      if sel !in conceptCache {
        var best := BestRanked(sel);
        var grouped := GroupByConcept(filing, sel, best);
        conceptCache := conceptCache[sel := grouped];
      }
      assert GroupsBest(filing, sel, conceptCache[sel]);
      values := Slice(conceptCache[sel], concept);
    }
  }

  lemma NextFact(filing: Filing, i: nat, sel: Selection, best: Ranked, best': Ranked)
    requires i < |filing.facts| && IsBestRanked(filing, i, sel, best)
    requires var fact := filing.facts[i];
             var key := KeyOf(fact, sel);
             var entry := (filing.periodRank(fact), if fact.value.Some? then fact.value.value else 0.0);
             if !Selected(filing, fact, sel) then best' == best
             else if key !in best.table then best' == Ranked(best.order + [key], best.table[key := entry])
             else if Below(best.table[key].0, entry.0) then best' == best.(table := best.table[key := entry])
             else best' == best
    ensures IsBestRanked(filing, i + 1, sel, best')
  {
    var fact := filing.facts[i];
    forall key | key in best'.table ensures IsBest(filing, i + 1, sel, key, best'.table[key].0, best'.table[key].1) {
      if !Fills(filing, fact, sel, key) {
        OtherKey(filing, i, sel, key, best.table[key].0, best.table[key].1);
      } else if key !in best.table {
        KeysAreFilled(filing, i, sel, key);
        FirstOfKey(filing, i, sel, key);
      } else if Below(best.table[key].0, filing.periodRank(fact)) {
        Beaten(filing, i, sel, key, best.table[key].0, best.table[key].1);
      } else {
        NotBeaten(filing, i, sel, key, best.table[key].0, best.table[key].1);
      }
    }
  }

  // ----------------------------------------------------------------- grouping by concept

  type Grouped = map<string, map<string, real>>

  function Slice(grouped: Grouped, concept: string): map<string, real> {
    if concept in grouped then grouped[concept] else map[]
  }

  /** The first `n` keys, grouped. */
  ghost predicate GroupsFirst(best: Ranked, n: nat, grouped: Grouped) {
    && n <= |best.order|
    && (forall key :: key in best.order ==> key in best.table)
    && (forall key: Key :: key.1 in Slice(grouped, key.0) <==> key in best.order[..n])
    && (forall key: Key :: key in best.order[..n] ==>
        key.1 in Slice(grouped, key.0) && Slice(grouped, key.0)[key.1] == best.table[key].1)
  }

  lemma GroupStep(best: Ranked, i: nat, grouped: Grouped)
    requires GroupsFirst(best, i, grouped) && i < |best.order|
    requires best.order[i] in best.table
    ensures var key := best.order[i];
            GroupsFirst(best, i + 1, grouped[key.0 := Slice(grouped, key.0)[key.1 := best.table[key].1]])
  {
    assert best.order[..i + 1] == best.order[..i] + [best.order[i]];
  }

  /** A concept's years, each with the value of its best-ranked fact. */
  ghost predicate SliceIsBest(filing: Filing, sel: Selection, concept: string, values: map<string, real>) {
    && (forall year :: year in values <==> Filled(filing, |filing.facts|, sel, (concept, year)))
    && (forall year :: year in values ==>
        exists rank :: IsBest(filing, |filing.facts|, sel, (concept, year), rank, values[year]))
  }

  ghost predicate GroupsBest(filing: Filing, sel: Selection, grouped: Grouped) {
    forall concept :: SliceIsBest(filing, sel, concept, Slice(grouped, concept))
  }

  /** The loop of `best_ranked_values` that builds the grouped index. */
  method GroupByConcept(filing: Filing, sel: Selection, best: Ranked) returns (grouped: Grouped)
    requires IsBestRanked(filing, |filing.facts|, sel, best)
    ensures GroupsBest(filing, sel, grouped)
  {
    grouped := map[];
    for i := 0 to |best.order|
      invariant GroupsFirst(best, i, grouped)
    {
      var key := best.order[i];
      GroupStep(best, i, grouped);
      grouped := grouped[key.0 := Slice(grouped, key.0)[key.1 := best.table[key].1]];
    }
    GroupedAll(filing, sel, best, grouped);
  }

  lemma GroupedAll(filing: Filing, sel: Selection, best: Ranked, grouped: Grouped)
    requires IsBestRanked(filing, |filing.facts|, sel, best)
    requires GroupsFirst(best, |best.order|, grouped)
    ensures GroupsBest(filing, sel, grouped)
  {
    assert best.order[..|best.order|] == best.order;
    forall concept ensures SliceIsBest(filing, sel, concept, Slice(grouped, concept)) {
      forall year
        ensures year in Slice(grouped, concept) <==> Filled(filing, |filing.facts|, sel, (concept, year))
        ensures year in Slice(grouped, concept) ==>
                  exists rank :: IsBest(filing, |filing.facts|, sel, (concept, year), rank,
                                        Slice(grouped, concept)[year])
      {
        var key: Key := (concept, year);
        KeysAreFilled(filing, |filing.facts|, sel, key);
        assert key.1 in Slice(grouped, key.0) <==> key in best.order;
        if key in best.order {
          assert IsBest(filing, |filing.facts|, sel, key, best.table[key].0, best.table[key].1);
        }
      }
    }
  }
}
