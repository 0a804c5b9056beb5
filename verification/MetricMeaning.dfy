/** What a metric series serves, said of the filing's facts and records directly
    (edgar_sec/apps/client/kernel.py:311-348,
    edgar_sec/apps/client/financials_core.py:310-398). */
module MetricMeaning {
  import opened Common
  import opened Sorting
  import opened Facts
  import opened MetricKernel
  import opened CalcDistance
  import opened MetricSeries

  // ------------------------------------------------------------- the kernel's facts

  /** The fact is plain, a number, in a unit and of a span the selection admits. */
  ghost predicate Admits(filing: Filing, sel: Selection, fact: Fact) {
    && |fact.dimensions| == 0 && fact.value.Some?
    && (sel.monetaryOnly ==>
          fact.unit != "pure" && fact.unit != "shares" && fact.unit != "item" && fact.unit != "ratio")
    && (fact.start == "" || fact.end == "" || filing.spanClass(fact) == sel.lengthClass)
  }

  /** The date the selection reads. */
  ghost predicate Dated(sel: Selection, fact: Fact, date: string) {
    match sel.instant
    case Some(true) => date == fact.instant
    case Some(false) => date == fact.end
    case None => (fact.instant != "" && date == fact.instant) || (fact.instant == "" && date == fact.end)
  }

  /** The fact counts for a concept and a year: the date's first four characters. */
  ghost predicate Counts(filing: Filing, sel: Selection, fact: Fact, concept: string, year: string) {
    && fact.concept == concept && Admits(filing, sel, fact)
    && exists date ::
         Dated(sel, fact, date) && date != "" && year <= date && (|year| == 4 || (|year| < 4 && year == date))
  }

  lemma CountsIff(filing: Filing, sel: Selection, fact: Fact, concept: string, year: string)
    ensures Fills(filing, fact, sel, (concept, year)) <==> Counts(filing, sel, fact, concept, year)
  {
    var date := DateOf(fact, sel.instant);
    assert Dated(sel, fact, date);
    assert forall d :: Dated(sel, fact, d) ==> d == date;
    YearOfIff(date, year);
    assert |fact.dimensions| == 0 <==> fact.dimensions == map[];
  }

  lemma YearOfIff(date: string, year: string)
    ensures YearOf(date) == year <==> year <= date && (|year| == 4 || (|year| < 4 && year == date))
  {
    if year <= date {
      assert date[..|year|] == year;
      assert |date| == |year| ==> date == year;
    }
  }

  /** The kernel's value for a concept and year is that of a fact that counts; no other
      such fact has a longer span, or as long a span and finer decimals, and none
      filed earlier ranks as high. */
  lemma BestRankedMeans(filing: Filing, sel: Selection, best: Ranked, concept: string, year: string)
    returns (i: nat)
    requires IsBestRanked(filing, |filing.facts|, sel, best) && (concept, year) in best.table
    ensures i < |filing.facts| && Counts(filing, sel, filing.facts[i], concept, year)
    ensures filing.facts[i].value == Some(best.table[(concept, year)].1)
    ensures forall j | 0 <= j < |filing.facts| && Counts(filing, sel, filing.facts[j], concept, year) ::
              var (span, decimals) := filing.periodRank(filing.facts[i]);
              var (span', decimals') := filing.periodRank(filing.facts[j]);
              && span' <= span && (span' == span ==> decimals' <= decimals)
              && (j < i ==> span' < span || decimals' < decimals)
  {
    var key := (concept, year);
    i :| IsBestAt(filing, |filing.facts|, sel, key, i)
         && best.table[key].0 == filing.periodRank(filing.facts[i]) && best.table[key].1 == filing.facts[i].value.value;
    CountsIff(filing, sel, filing.facts[i], concept, year);
    forall j | 0 <= j < |filing.facts| ensures
        Fills(filing, filing.facts[j], sel, key) <==> Counts(filing, sel, filing.facts[j], concept, year) {
      CountsIff(filing, sel, filing.facts[j], concept, year);
    }
  }

  lemma BestRankedHas(filing: Filing, sel: Selection, best: Ranked, concept: string, year: string)
    requires IsBestRanked(filing, |filing.facts|, sel, best)
    ensures (concept, year) in best.table <==>
              exists fact :: fact in filing.facts && Counts(filing, sel, fact, concept, year)
  {
    KeysAreFilled(filing, |filing.facts|, sel, (concept, year));
    forall fact ensures Fills(filing, fact, sel, (concept, year)) <==> Counts(filing, sel, fact, concept, year) {
      CountsIff(filing, sel, fact, concept, year);
    }
    if fact :| fact in filing.facts && Counts(filing, sel, fact, concept, year) {
      var j :| 0 <= j < |filing.facts| && filing.facts[j] == fact;
    }
  }

  lemma {:induction false} KeysPrefix(filing: Filing, a: nat, n: nat, sel: Selection)
    requires a <= n <= |filing.facts|
    ensures KeysInOrder(filing, a, sel) <= KeysInOrder(filing, n, sel)
  {
    if a < n { KeysPrefix(filing, a, n - 1, sel); }
  }

  /** In a prefix of a list without repeats, what stands before a member is in it too. */
  lemma EarlierInPrefix(seen: seq<Key>, all: seq<Key>, i: nat, j: nat)
    requires seen <= all && Distinct(all) && i < j < |all| && all[j] in seen
    ensures all[i] in seen
  {
    var k :| 0 <= k < |seen| && seen[k] == all[j];
    assert all[k] == seen[k];
    assert seen[i] == all[i];
  }

  lemma FilledEarlier(filing: Filing, sel: Selection, i: nat, j: nat, b: nat) returns (a: nat)
    requires b < |filing.facts| && i < j < |KeysInOrder(filing, |filing.facts|, sel)|
    requires Fills(filing, filing.facts[b], sel, KeysInOrder(filing, |filing.facts|, sel)[j])
    ensures a <= b && Fills(filing, filing.facts[a], sel, KeysInOrder(filing, |filing.facts|, sel)[i])
  {
    var all := KeysInOrder(filing, |filing.facts|, sel);
    KeysPrefix(filing, b + 1, |filing.facts|, sel);
    KeysDistinct(filing, |filing.facts|, sel);
    assert Filled(filing, b + 1, sel, all[j]);
    KeysAreFilled(filing, b + 1, sel, all[j]);
    EarlierInPrefix(KeysInOrder(filing, b + 1, sel), all, i, j);
    KeysAreFilled(filing, b + 1, sel, all[i]);
    a :| 0 <= a < b + 1 && Fills(filing, filing.facts[a], sel, all[i]);
  }

  /** The map's keys stand in the order of their first facts: before the fact that first
      carries a later key, some fact carries the earlier one. */
  lemma FirstSeenFirst(filing: Filing, sel: Selection, best: Ranked, i: nat, j: nat, b: nat) returns (a: nat)
    requires IsBestRanked(filing, |filing.facts|, sel, best) && i < j < |best.order| && b < |filing.facts|
    requires Counts(filing, sel, filing.facts[b], best.order[j].0, best.order[j].1)
    ensures a < b && Counts(filing, sel, filing.facts[a], best.order[i].0, best.order[i].1)
  {
    var x, y := best.order[i], best.order[j];
    CountsIff(filing, sel, filing.facts[b], y.0, y.1);
    a := FilledEarlier(filing, sel, i, j, b);
    CountsIff(filing, sel, filing.facts[a], x.0, x.1);
    KeysDistinct(filing, |filing.facts|, sel);
  }

  // --------------------------------------------------------------- the year's candidates

  /** The concept is recorded at the query's coordinate, and the year is four digits. */
  ghost predicate Belongs(core: Core, q: Query, concept: string, year: string) {
    && |year| == 4 && (forall i :: 0 <= i < 4 ==> '0' <= year[i] <= '9')
    && concept in core.records && core.records[concept].head == q.head
    && (forall m :: m in q.mods ==> m in core.records[concept].modifiers)
    && (forall m :: m in q.excluded ==> m !in core.records[concept].modifiers)
    && (q.valence == "" || q.valence in core.records[concept].modifiers)
  }

  lemma BelongsIff(core: Core, q: Query, concept: string, year: string)
    ensures Eligible(core.records, q, (concept, year)) <==> Belongs(core, q, concept, year)
  {}

  function Bareness(core: Core, concept: string): nat
    requires concept in core.records
  {
    |core.records[concept].modifiers|
  }

  /** The pool's entry for an eligible key stands after those of the earlier keys. */
  lemma {:induction false} PoolIndex(best: Ranked, n: nat, core: Core, q: Query, year: string, i: nat)
    requires i < n <= |best.order| && WellFormed(best)
    requires best.order[i].1 == year && Eligible(core.records, q, best.order[i])
    ensures var k := |PoolOf(best, i, core.records, q, year)|;
            && k < |PoolOf(best, n, core.records, q, year)|
            && PoolOf(best, n, core.records, q, year)[k] == ItemAt(core, best, i)
  {
    if i + 1 < n {
      PoolIndex(best, n - 1, core, q, year, i);
    }
  }

  lemma {:induction false} PoolOrigin(best: Ranked, n: nat, core: Core, q: Query, year: string, k: nat) returns (i: nat)
    requires n <= |best.order| && WellFormed(best) && k < |PoolOf(best, n, core.records, q, year)|
    ensures i < n && best.order[i].1 == year && Eligible(core.records, q, best.order[i])
    ensures k == |PoolOf(best, i, core.records, q, year)|
  {
    if k < |PoolOf(best, n - 1, core.records, q, year)| {
      i := PoolOrigin(best, n - 1, core, q, year, k);
    } else {
      i := n - 1;
    }
  }

  lemma {:induction false} PoolGrows(best: Ranked, i: nat, j: nat, core: Core, q: Query, year: string)
    requires i <= j <= |best.order| && WellFormed(best)
    ensures |PoolOf(best, i, core.records, q, year)| <= |PoolOf(best, j, core.records, q, year)|
  {
    if i < j { PoolGrows(best, i, j - 1, core, q, year); }
  }

  /** Key `j` is the year's pick over key `i`: when bare concepts are preferred, fewer
      modifiers, then the larger magnitude, then the smaller signed value; else the
      larger magnitude; and the earlier key among equals. */
  ghost predicate PickedOver(core: Core, best: Ranked, q: Query, j: nat, i: nat)
    requires i < |best.order| && j < |best.order| && WellFormed(best)
    requires best.order[i].0 in core.records && best.order[j].0 in core.records
  {
    var (few, many) := (Bareness(core, best.order[j].0), Bareness(core, best.order[i].0));
    var (v, w) := (best.table[best.order[j]].1, best.table[best.order[i]].1);
    if q.preferBare then
      && few <= many
      && (few == many ==> Abs(v) >= Abs(w))
      && (few == many && Abs(v) == Abs(w) ==> v <= w)
      && (i < j ==> few < many || Abs(v) > Abs(w) || v < w)
    else
      Abs(v) >= Abs(w) && (i < j ==> Abs(v) > Abs(w))
  }

  lemma FirstBestIsPicked(core: Core, best: Ranked, q: Query, year: string, j: nat, i: nat)
    requires WellFormed(best) && i < |best.order| && j < |best.order|
    requires best.order[i].1 == best.order[j].1 == year
    requires Eligible(core.records, q, best.order[i]) && Eligible(core.records, q, best.order[j])
    requires IsFirstBest(PoolOf(best, |best.order|, core.records, q, year), q.preferBare,
                         |PoolOf(best, j, core.records, q, year)|)
    ensures PickedOver(core, best, q, j, i)
  {
    var n := |best.order|;
    PoolIndex(best, n, core, q, year, i);
    PoolIndex(best, n, core, q, year, j);
    if i < j {
      PoolIndex(best, j, core, q, year, i);
    }
    var pool := PoolOf(best, n, core.records, q, year);
    var k, w := |PoolOf(best, i, core.records, q, year)|, |PoolOf(best, j, core.records, q, year)|;
    assert pool[k] == ItemAt(core, best, i) && pool[w] == ItemAt(core, best, j);
    assert !Beats(q.preferBare, CandOf(pool[k]), CandOf(pool[w]));
    assert k < w ==> Beats(q.preferBare, CandOf(pool[w]), CandOf(pool[k]));
  }

  // ----------------------------------------------------------------- yielding picks

  /** A concept's prefix stands before its first colon; without a colon it is empty. */
  lemma {:induction false} PrefixMeans(p: string, rest: string)
    requires ':' !in p
    ensures Prefix(p) == "" && Prefix(p + ":" + rest) == p
  {
    PrefixStops(p, rest);
    assert (p + ":" + rest)[|p|] == ':';
  }

  lemma {:induction false} PrefixStops(p: string, rest: string)
    requires ':' !in p
    ensures BeforeColon(p + ":" + rest) == p
  {
    var s := p + ":" + rest;
    if p != "" {
      PrefixStops(p[1..], rest);
      assert s[1..] == p[1..] + ":" + rest;
    }
  }

  /** Key `i` is a standard concept, other than the pick, `d` arcs above it. */
  ghost predicate StandsAbove(core: Core, best: Ranked, q: Query, j: nat, i: nat, d: nat)
    requires i < |best.order| && j < |best.order|
  {
    && best.order[i].1 == best.order[j].1 && Belongs(core, q, best.order[i].0, best.order[i].1)
    && best.order[i].0 != best.order[j].0 && Prefix(best.order[i].0) in core.standard
    && IsDistance(core.children, best.order[i].0, best.order[j].0, d)
  }

  lemma AncestorIff(core: Core, best: Ranked, q: Query, year: string, j: nat, i: nat, d: nat)
    requires WellFormed(best) && i < |best.order| && j < |best.order|
    requires best.order[i].1 == best.order[j].1 == year && Eligible(core.records, q, best.order[i])
    ensures StandsAbove(core, best, q, j, i, d) <==>
              IsAncestorAt(core, PoolOf(best, |best.order|, core.records, q, year), best.order[j].0,
                           |PoolOf(best, i, core.records, q, year)|, d)
  {
    PoolIndex(best, |best.order|, core, q, year, i);
    BelongsIff(core, q, best.order[i].0, year);
  }

  /** A revenue pick outside the standard concepts, with a standard concept above it. */
  ghost predicate GivesWay(core: Core, best: Ranked, q: Query, j: nat)
    requires j < |best.order|
  {
    && q.head == "H_REVENUE" && q.mods == {}
    && Prefix(best.order[j].0) !in core.standard
    && exists i: nat, d: nat :: i < |best.order| && StandsAbove(core, best, q, j, i, d)
  }

  lemma GivesWayIff(core: Core, best: Ranked, q: Query, year: string, j: nat)
    requires WellFormed(best) && j < |best.order| && best.order[j].1 == year
    ensures GivesWay(core, best, q, j) <==>
              && Yields(q) && !IsStandard(core, best.order[j].0)
              && HasAncestor(core, PoolOf(best, |best.order|, core.records, q, year), best.order[j].0)
  {
    var pool := PoolOf(best, |best.order|, core.records, q, year);
    var concept := best.order[j].0;
    if HasAncestor(core, pool, concept) {
      var k, d: nat :| IsAncestorAt(core, pool, concept, k, d);
      var i := PoolOrigin(best, |best.order|, core, q, year, k);
      AncestorIff(core, best, q, year, j, i, d);
      assert StandsAbove(core, best, q, j, i, d);
    }
    if i: nat, d: nat :| i < |best.order| && StandsAbove(core, best, q, j, i, d) {
      BelongsIff(core, q, best.order[i].0, year);
      AncestorIff(core, best, q, year, j, i, d);
    }
  }

  /** Key `i` serves for the pick `j`: no standard concept above it is nearer, none as
      near is larger, and none as near and as large comes earlier by name. */
  ghost predicate StandsIn(core: Core, best: Ranked, q: Query, j: nat, i: nat, d: nat)
    requires i < |best.order| && j < |best.order| && WellFormed(best)
  {
    && StandsAbove(core, best, q, j, i, d)
    && (forall k: nat, e: nat :: k < |best.order| && StandsAbove(core, best, q, j, k, e) ==>
          && d <= e
          && (d == e ==> Abs(best.table[best.order[i]].1) >= Abs(best.table[best.order[k]].1))
          && (d == e && Abs(best.table[best.order[i]].1) == Abs(best.table[best.order[k]].1) ==>
                StringLe(best.order[i].0, best.order[k].0)))
  }

  lemma NearestStandsIn(core: Core, best: Ranked, q: Query, year: string, j: nat, i: nat, d: nat)
    requires WellFormed(best) && i < |best.order| && j < |best.order|
    requires best.order[i].1 == best.order[j].1 == year && Eligible(core.records, q, best.order[i])
    requires IsNearestAt(core, PoolOf(best, |best.order|, core.records, q, year), best.order[j].0,
                         |PoolOf(best, i, core.records, q, year)|, d)
    ensures StandsIn(core, best, q, j, i, d)
  {
    var pool := PoolOf(best, |best.order|, core.records, q, year);
    var concept, a := best.order[j].0, |PoolOf(best, i, core.records, q, year)|;
    AncestorIff(core, best, q, year, j, i, d);
    PoolIndex(best, |best.order|, core, q, year, i);
    forall k: nat, e: nat | k < |best.order| && StandsAbove(core, best, q, j, k, e)
      ensures !RankedLess(Reached(e, ItemAt(core, best, k)), Reached(d, ItemAt(core, best, i)))
    {
      BelongsIff(core, q, best.order[k].0, year);
      AncestorIff(core, best, q, year, j, k, e);
      PoolIndex(best, |best.order|, core, q, year, k);
      assert IsAncestorAt(core, pool, concept, |PoolOf(best, k, core.records, q, year)|, e);
    }
    forall k: nat, e: nat | k < |best.order| && StandsAbove(core, best, q, j, k, e)
      ensures && d <= e
              && (d == e ==> Abs(best.table[best.order[i]].1) >= Abs(best.table[best.order[k]].1))
              && (d == e && Abs(best.table[best.order[i]].1) == Abs(best.table[best.order[k]].1) ==>
                    StringLe(best.order[i].0, best.order[k].0))
    {
      StringLeTotal(best.order[i].0, best.order[k].0);
    }
  }

  // ------------------------------------------------------------------- the whole pair

  /** A year is served exactly when some recorded concept of the coordinate has a value
      for it. */
  lemma ServedIff(core: Core, q: Query, sel: Selection, best: Ranked, series: map<string, real>,
                  winners: map<string, string>, year: string)
    requires core.hasLexicon && IsSeriesPair(core, q, sel, series, winners)
    requires IsBestRanked(core.filing, |core.filing.facts|, sel, best)
    ensures year in series <==> exists concept :: (concept, year) in best.table && Belongs(core, q, concept, year)
  {
    PairOfBest(core, q, sel, best, series, winners);
    assert ServesYear(core, best, q, Yields(q), series, winners, year);
    var pool := PoolOf(best, |best.order|, core.records, q, year);
    if pool != [] {
      var i := PoolOrigin(best, |best.order|, core, q, year, 0);
      BelongsIff(core, q, best.order[i].0, year);
      assert best.order[i] in best.order;
      assert best.order[i] == (best.order[i].0, year);
    }
    if concept :| (concept, year) in best.table && Belongs(core, q, concept, year) {
      BelongsIff(core, q, concept, year);
      var i :| 0 <= i < |best.order| && best.order[i] == (concept, year);
      PoolIndex(best, |best.order|, core, q, year, i);
    }
  }

  lemma PairOfBest(core: Core, q: Query, sel: Selection, best: Ranked, series: map<string, real>,
                   winners: map<string, string>)
    requires core.hasLexicon && IsSeriesPair(core, q, sel, series, winners)
    requires IsBestRanked(core.filing, |core.filing.facts|, sel, best)
    ensures PairOver(core, best, q, series, winners)
  {
    var b :| IsBestRanked(core.filing, |core.filing.facts|, sel, b) && PairOver(core, b, q, series, winners);
    BestRankedUnique(core.filing, |core.filing.facts|, sel, b, best);
  }

  /** A served year has a pick, ahead of every other candidate; the year serves the pick
      itself, unless it gives way, and then the concept that stands in for it. */
  lemma ServedYearMeans(core: Core, q: Query, sel: Selection, best: Ranked, series: map<string, real>,
                        winners: map<string, string>, year: string) returns (pick: nat, served: nat)
    requires core.hasLexicon && IsSeriesPair(core, q, sel, series, winners) && year in series
    requires IsBestRanked(core.filing, |core.filing.facts|, sel, best)
    ensures WellFormed(best) && pick < |best.order| && served < |best.order| && year in winners
    ensures best.order[pick].1 == year && Belongs(core, q, best.order[pick].0, year)
    ensures forall i :: 0 <= i < |best.order| && best.order[i].1 == year && Belongs(core, q, best.order[i].0, year) ==>
              PickedOver(core, best, q, pick, i)
    ensures best.order[served] == (winners[year], year) && best.table[best.order[served]].1 == series[year]
    ensures !GivesWay(core, best, q, pick) ==> served == pick
    ensures GivesWay(core, best, q, pick) ==> exists d: nat :: StandsIn(core, best, q, pick, served, d)
  {
    PairOfBest(core, q, sel, best, series, winners);
    assert ServesYear(core, best, q, Yields(q), series, winners, year);
    var n, pool := |best.order|, PoolOf(best, |best.order|, core.records, q, year);
    var w :| IsFirstBest(pool, q.preferBare, w)
             && ServesInPlace(core, Yields(q), pool, pool[w], winners[year], series[year]);
    pick := PoolOrigin(best, n, core, q, year, w);
    PoolIndex(best, n, core, q, year, pick);
    BelongsIff(core, q, best.order[pick].0, year);
    forall i | 0 <= i < n && best.order[i].1 == year && Belongs(core, q, best.order[i].0, year)
      ensures PickedOver(core, best, q, pick, i)
    {
      BelongsIff(core, q, best.order[i].0, year);
      FirstBestIsPicked(core, best, q, year, pick, i);
    }
    GivesWayIff(core, best, q, year, pick);
    if GivesWay(core, best, q, pick) {
      var k, d: nat :| IsNearestAt(core, pool, best.order[pick].0, k, d)
                       && pool[k].concept == winners[year] && pool[k].value == series[year];
      served := PoolOrigin(best, n, core, q, year, k);
      PoolIndex(best, n, core, q, year, served);
      NearestStandsIn(core, best, q, year, pick, served, d);
    } else {
      served := pick;
    }
  }
}
