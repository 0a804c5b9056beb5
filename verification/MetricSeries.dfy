/** Metric series and their winning concepts
    (edgar_sec/apps/client/financials_core.py:310-398) and the three-way capex union
    (edgar_sec/apps/client/financials_capex.py:25-55, 86-116). */
module MetricSeries {
  import opened Common
  import opened Sorting
  import opened Facts
  import opened MetricKernel
  import opened Walks
  import opened CalcDistance

  /** The coordinate a series is read at; no valence is the empty string. */
  datatype Query = Query(head: string, mods: set<string>, excluded: set<string>, valence: string, preferBare: bool)

  /** What serving needs beside the kernel: the records, the calculation children by
      parent, the standard prefixes, and whether a lexicon is loaded. */
  datatype Core = Core(filing: Filing, records: Records, children: Children, standard: set<string>, hasLexicon: bool)

  /** The text before the first colon; empty without one. */
  function Prefix(qname: string): string {
    if ':' !in qname then "" else BeforeColon(qname)
  }

  function BeforeColon(qname: string): string {
    if qname == "" || qname[0] == ':' then "" else [qname[0]] + BeforeColon(qname[1..])
  }

  predicate IsStandard(core: Core, concept: string) {
    Prefix(concept) in core.standard
  }

  predicate Eligible(records: Records, q: Query, key: Key) {
    && IsYearText(key.1) && key.0 in records && records[key.0].head == q.head
    && q.mods <= records[key.0].modifiers
    && q.excluded !! records[key.0].modifiers
    && (q.valence != "" ==> q.valence in records[key.0].modifiers)
  }

  // --------------------------------------------------------------- a year's candidates

  datatype Item = Item(concept: string, value: real, mods: nat)

  ghost predicate WellFormed(best: Ranked) {
    Distinct(best.order) && forall key :: key in best.order ==> key in best.table
  }

  /** The pool of a year: the eligible concepts, in dictionary order. */
  function PoolOf(best: Ranked, n: nat, records: Records, q: Query, year: string): seq<Item>
    requires n <= |best.order|
    requires forall key :: key in best.order ==> key in best.table
  {
    if n == 0 then []
    else
      var key := best.order[n - 1];
      PoolOf(best, n - 1, records, q, year)
        + (if key.1 == year && Eligible(records, q, key)
           then [Item(key.0, best.table[key].1, |records[key.0].modifiers|)] else [])
  }

  lemma {:induction false} PoolMember(best: Ranked, n: nat, records: Records, q: Query, year: string, item: Item)
    requires n <= |best.order| && WellFormed(best)
    requires item in PoolOf(best, n, records, q, year)
    ensures var key := (item.concept, year);
            key in best.table && best.table[key].1 == item.value && Eligible(records, q, key)
  {
    var key := best.order[n - 1];
    if !(key.1 == year && Eligible(records, q, key)
         && item == Item(key.0, best.table[key].1, |records[key.0].modifiers|)) {
      PoolMember(best, n - 1, records, q, year, item);
    }
  }

  /** The comparison tuple of the loop. */
  type Cand = (nat, real, real)

  function CandOf(item: Item): Cand {
    (item.mods, -Abs(item.value), item.value)
  }

  predicate CandLess(a: Cand, b: Cand) {
    a.0 < b.0 || (a.0 == b.0 && (a.1 < b.1 || (a.1 == b.1 && a.2 < b.2)))
  }

  /** A later candidate takes over from the current one. */
  predicate Beats(preferBare: bool, later: Cand, current: Cand) {
    if preferBare then CandLess(later, current) else Abs(later.2) > Abs(current.2)
  }

  /** The candidate no other beats, first among its equals: barest concept and then
      largest magnitude when bare concepts are preferred, else largest magnitude. */
  ghost predicate IsFirstBest(pool: seq<Item>, preferBare: bool, w: int) {
    && 0 <= w < |pool|
    && (forall j :: 0 <= j < |pool| ==> !Beats(preferBare, CandOf(pool[j]), CandOf(pool[w])))
    && (forall j :: 0 <= j < w ==> Beats(preferBare, CandOf(pool[w]), CandOf(pool[j])))
  }

  lemma FirstBestUnique(pool: seq<Item>, preferBare: bool, w: int, x: int)
    requires IsFirstBest(pool, preferBare, w) && IsFirstBest(pool, preferBare, x)
    ensures w == x
  {
    var later := Beats(preferBare, CandOf(pool[x]), CandOf(pool[w]));
    var earlier := Beats(preferBare, CandOf(pool[w]), CandOf(pool[x]));
    assert !later && !earlier;
  }

  lemma NextItem(pool: seq<Item>, preferBare: bool, w: int, item: Item)
    requires IsFirstBest(pool, preferBare, w)
    ensures IsFirstBest(pool + [item], preferBare, if Beats(preferBare, CandOf(item), CandOf(pool[w])) then |pool|
                        else w)
  {}

  // ----------------------------------------------------------- the nearest standard total

  /** Pool entry `i` is a standard concept, not the pick, `d` calculation arcs above it. */
  ghost predicate IsAncestorAt(core: Core, pool: seq<Item>, winner: string, i: int, d: nat) {
    && 0 <= i < |pool| && pool[i].concept != winner && IsStandard(core, pool[i].concept)
    && IsDistance(core.children, pool[i].concept, winner, d)
  }

  datatype Reached = Reached(distance: nat, item: Item)

  /** Python's order on `(distance, -abs(val), qname, val)`. */
  predicate RankedLess(a: Reached, b: Reached) {
    || a.distance < b.distance
    || (a.distance == b.distance
        && (|| -Abs(a.item.value) < -Abs(b.item.value)
            || (Abs(a.item.value) == Abs(b.item.value)
                && (|| (a.item.concept != b.item.concept && StringLe(a.item.concept, b.item.concept))
                    || (a.item.concept == b.item.concept && a.item.value < b.item.value)))))
  }

  lemma RankedTotal(a: Reached, b: Reached)
    ensures !RankedLess(a, b) && !RankedLess(b, a) ==> a.item.concept == b.item.concept && a.item.value == b.item.value
  {
    StringLeTotal(a.item.concept, b.item.concept);
  }

  lemma RankedNegative(a: Reached, b: Reached, c: Reached)
    requires RankedLess(a, b) && !RankedLess(c, b)
    ensures !RankedLess(c, a)
  {
    var x, y, z := a.item.concept, b.item.concept, c.item.concept;
    StringLeTotal(x, y);
    StringLeTotal(y, z);
    StringLeTotal(x, z);
    if StringLe(z, x) && StringLe(x, y) { StringLeTransitive(z, x, y); }
    if StringLe(x, y) && StringLe(y, z) { StringLeTransitive(x, y, z); }
  }

  ghost predicate IsNearestAt(core: Core, pool: seq<Item>, winner: string, i: int, d: nat) {
    && IsAncestorAt(core, pool, winner, i, d)
    && (forall k, e: nat :: IsAncestorAt(core, pool, winner, k, e) ==>
        !RankedLess(Reached(e, pool[k]), Reached(d, pool[i])))
  }

  ghost predicate IsNearest(core: Core, pool: seq<Item>, winner: string, concept: string, value: real) {
    exists i, d: nat :: IsNearestAt(core, pool, winner, i, d) && pool[i].concept == concept && pool[i].value == value
  }

  ghost predicate HasAncestor(core: Core, pool: seq<Item>, winner: string) {
    exists i, d: nat :: IsAncestorAt(core, pool, winner, i, d)
  }

  lemma NearestUnique(core: Core, pool: seq<Item>, winner: string, concept: string, value: real, concept': string,
                      value': real)
    requires IsNearest(core, pool, winner, concept, value) && IsNearest(core, pool, winner, concept', value')
    ensures concept == concept' && value == value'
  {
    var i, d: nat :| IsNearestAt(core, pool, winner, i, d) && pool[i].concept == concept && pool[i].value == value;
    var k, e: nat :| IsNearestAt(core, pool, winner, k, e) && pool[k].concept == concept' && pool[k].value == value';
    RankedTotal(Reached(d, pool[i]), Reached(e, pool[k]));
  }

  lemma DistanceUnique(children: Children, a: Node, b: Node, n: nat, m: nat)
    requires IsDistance(children, a, b, n) && IsDistance(children, a, b, m)
    ensures n == m
  {}

  /** `ranked` lists the ancestors among the first `n` pool entries. */
  ghost predicate RanksFirst(core: Core, pool: seq<Item>, winner: string, n: nat, ranked: seq<Reached>) {
    && (forall r :: r in ranked ==>
        exists i :: 0 <= i < n && IsAncestorAt(core, pool, winner, i, r.distance) && pool[i] == r.item)
    && (forall i, d: nat :: i < n && IsAncestorAt(core, pool, winner, i, d) ==> Reached(d, pool[i]) in ranked)
  }

  lemma RankNext(core: Core, pool: seq<Item>, winner: string, n: nat, ranked: seq<Reached>, d: nat)
    requires RanksFirst(core, pool, winner, n, ranked) && IsAncestorAt(core, pool, winner, n, d)
    ensures RanksFirst(core, pool, winner, n + 1, ranked + [Reached(d, pool[n])])
  {
    var r' := ranked + [Reached(d, pool[n])];
    forall r | r in r'
      ensures exists i :: 0 <= i < n + 1 && IsAncestorAt(core, pool, winner, i, r.distance) && pool[i] == r.item {
      if r in ranked {
        var i :| 0 <= i < n && IsAncestorAt(core, pool, winner, i, r.distance) && pool[i] == r.item;
      } else {
        assert r == Reached(d, pool[n]);
      }
    }
    forall i, e: nat | i < n + 1 && IsAncestorAt(core, pool, winner, i, e) ensures Reached(e, pool[i]) in r' {
      if i == n {
        DistanceUnique(core.children, pool[n].concept, winner, d, e);
      } else {
        assert Reached(e, pool[i]) in ranked;
      }
    }
  }

  lemma RankSkip(core: Core, pool: seq<Item>, winner: string, n: nat, ranked: seq<Reached>)
    requires RanksFirst(core, pool, winner, n, ranked)
    requires forall d: nat :: !IsAncestorAt(core, pool, winner, n, d)
    ensures RanksFirst(core, pool, winner, n + 1, ranked)
  {
    forall r | r in ranked
      ensures exists i :: 0 <= i < n + 1 && IsAncestorAt(core, pool, winner, i, r.distance) && pool[i] == r.item {
      var i :| 0 <= i < n && IsAncestorAt(core, pool, winner, i, r.distance) && pool[i] == r.item;
    }
  }

  /** The standard total that a pick yields to, if any: the nearest calculation ancestor
      in the pool, then the largest, then the first by name. */
  method NearestStandard(core: Core, pool: seq<Item>, winner: string) returns (nearest: Option<Item>)
    ensures nearest.Some? ==> IsNearest(core, pool, winner, nearest.value.concept, nearest.value.value)
    ensures nearest.Some? ==> nearest.value in pool
    ensures nearest.None? ==> !HasAncestor(core, pool, winner)
  {
    var ranked: seq<Reached> := [];
    for i := 0 to |pool|
      invariant RanksFirst(core, pool, winner, i, ranked)
    {
      var distance: Option<nat> := None;
      if pool[i].concept != winner && IsStandard(core, pool[i].concept) {
        distance := Distance(core.children, pool[i].concept, winner);
      }
      if distance.Some? {
        RankNext(core, pool, winner, i, ranked, distance.value);
        ranked := ranked + [Reached(distance.value, pool[i])];
      } else {
        RankSkip(core, pool, winner, i, ranked);
      }
    }
    if ranked == [] {
      return None;
    }
    var least := 0;
    for i := 1 to |ranked|
      invariant 0 <= least < i
      invariant forall j :: 0 <= j < i ==> !RankedLess(ranked[j], ranked[least])
    {
      if RankedLess(ranked[i], ranked[least]) {
        forall j | 0 <= j < i ensures !RankedLess(ranked[j], ranked[i]) {
          RankedNegative(ranked[i], ranked[least], ranked[j]);
        }
        least := i;
      }
    }
    LeastIsNearest(core, pool, winner, ranked, least);
    return Some(ranked[least].item);
  }

  lemma LeastIsNearest(core: Core, pool: seq<Item>, winner: string, ranked: seq<Reached>, least: nat)
    requires RanksFirst(core, pool, winner, |pool|, ranked) && least < |ranked|
    requires forall j :: 0 <= j < |ranked| ==> !RankedLess(ranked[j], ranked[least])
    ensures IsNearest(core, pool, winner, ranked[least].item.concept, ranked[least].item.value)
    ensures ranked[least].item in pool
  {
    var r := ranked[least];
    assert r in ranked;
    var i :| 0 <= i < |pool| && IsAncestorAt(core, pool, winner, i, r.distance) && pool[i] == r.item;
    assert r == Reached(r.distance, pool[i]);
    forall k, e: nat | IsAncestorAt(core, pool, winner, k, e) ensures !RankedLess(Reached(e, pool[k]), r) {
      var j :| 0 <= j < |ranked| && ranked[j] == Reached(e, pool[k]);
    }
    assert IsNearestAt(core, pool, winner, i, r.distance);
  }

  // ----------------------------------------------------------------------- the series

  /** What a year serves: its first best candidate, or, where picks yield, the nearest
      standard total above it. */
  ghost predicate Serves(core: Core, yielding: bool, preferBare: bool, pool: seq<Item>, concept: string, value: real) {
    exists w :: IsFirstBest(pool, preferBare, w) && ServesInPlace(core, yielding, pool, pool[w], concept, value)
  }

  ghost predicate ServesInPlace(core: Core, yielding: bool, pool: seq<Item>, pick: Item, concept: string, value: real) {
    if yielding && !IsStandard(core, pick.concept) && HasAncestor(core, pool, pick.concept)
    then IsNearest(core, pool, pick.concept, concept, value)
    else concept == pick.concept && value == pick.value
  }

  predicate Yields(q: Query) {
    q.head == "H_REVENUE" && q.mods == {}
  }

  ghost predicate ServesYear(core: Core, best: Ranked, q: Query, yielding: bool, series: map<string, real>,
                             winners: map<string, string>, year: string)
    requires WellFormed(best)
  {
    var pool := PoolOf(best, |best.order|, core.records, q, year);
    && (year in series <==> pool != []) && (year in winners <==> pool != [])
    && (pool != [] ==>
          && year in series && year in winners
          && Serves(core, yielding, q.preferBare, pool, winners[year], series[year]))
  }

  /** The pair over one best-ranked map. */
  ghost predicate PairOver(core: Core, best: Ranked, q: Query, series: map<string, real>,
                           winners: map<string, string>) {
    WellFormed(best) && forall year :: ServesYear(core, best, q, Yields(q), series, winners, year)
  }

  ghost predicate IsSeriesPair(core: Core, q: Query, sel: Selection, series: map<string, real>,
                               winners: map<string, string>) {
    if core.hasLexicon
    then exists best ::
           IsBestRanked(core.filing, |core.filing.facts|, sel, best) && PairOver(core, best, q, series, winners)
    else series == map[] && winners == map[]
  }

  /** One year's slots while candidates are read. */
  ghost predicate Tracks(pool: seq<Item>, preferBare: bool, year: string, byYear: map<string, Cand>,
                         winners: map<string, string>,
                         pools: map<string, seq<Item>>) {
    && (year in byYear <==> pool != []) && (year in winners <==> pool != [])
    && (year in pools <==> pool != []) && (year in pools ==> pools[year] == pool)
    && (year in byYear && year in winners ==>
          exists w ::
            IsFirstBest(pool, preferBare, w) && winners[year] == pool[w].concept && byYear[year] == CandOf(pool[w]))
  }

  lemma TrackNext(pool: seq<Item>, preferBare: bool, year: string, item: Item,
                  byYear: map<string, Cand>, winners: map<string, string>, pools: map<string, seq<Item>>)
    requires Tracks(pool, preferBare, year, byYear, winners, pools)
    ensures var takesOver := year !in byYear || Beats(preferBare, CandOf(item), byYear[year]);
            var byYear' := if takesOver then byYear[year := CandOf(item)] else byYear;
            var winners' := if takesOver then winners[year := item.concept] else winners;
            Tracks(pool + [item], preferBare, year, byYear', winners', pools[year := pool + [item]])
  {
    if year in byYear {
      var w :| IsFirstBest(pool, preferBare, w) && winners[year] == pool[w].concept && byYear[year] == CandOf(pool[w]);
      NextItem(pool, preferBare, w, item);
    } else {
      assert IsFirstBest(pool + [item], preferBare, 0);
    }
  }

  lemma PoolNext(best: Ranked, n: nat, records: Records, q: Query, year: string, key: Key)
    requires n < |best.order| && WellFormed(best)
    requires best.order[n] == key
    ensures key.1 == year && Eligible(records, q, key) ==>
              PoolOf(best, n + 1, records, q, year)
              == PoolOf(best, n, records, q, year) + [Item(key.0, best.table[key].1, |records[key.0].modifiers|)]
    ensures !(key.1 == year && Eligible(records, q, key)) ==>
              PoolOf(best, n + 1, records, q, year) == PoolOf(best, n, records, q, year)
  {}

  /** The slots of every year. */
  ghost predicate AllTrack(core: Core, best: Ranked, n: nat, q: Query, byYear: map<string, Cand>,
                           winners: map<string, string>, pools: map<string, seq<Item>>)
    requires n <= |best.order| && WellFormed(best)
  {
    forall year :: TracksAt(core, best, n, q, year, byYear, winners, pools)
  }

  ghost predicate TracksAt(core: Core, best: Ranked, n: nat, q: Query, year: string, byYear: map<string, Cand>,
                           winners: map<string, string>, pools: map<string, seq<Item>>)
    requires n <= |best.order| && WellFormed(best)
  {
    Tracks(PoolOf(best, n, core.records, q, year), q.preferBare, year, byYear, winners, pools)
  }

  /** `year` has the same slots in both. */
  predicate SameSlots(year: string, byYear: map<string, Cand>, winners: map<string, string>,
                      pools: map<string, seq<Item>>, byYear': map<string, Cand>, winners': map<string, string>,
                      pools': map<string, seq<Item>>) {
    && (year in byYear <==> year in byYear') && (year in byYear && year in byYear' ==> byYear[year] == byYear'[year])
    && (year in winners <==> year in winners')
    && (year in winners && year in winners' ==> winners[year] == winners'[year])
    && (year in pools <==> year in pools') && (year in pools && year in pools' ==> pools[year] == pools'[year])
  }

  lemma TracksSame(pool: seq<Item>, preferBare: bool, year: string, byYear: map<string, Cand>,
                   winners: map<string, string>, pools: map<string, seq<Item>>, byYear': map<string, Cand>,
                   winners': map<string, string>, pools': map<string, seq<Item>>)
    requires Tracks(pool, preferBare, year, byYear, winners, pools)
    requires SameSlots(year, byYear, winners, pools, byYear', winners', pools')
    ensures Tracks(pool, preferBare, year, byYear', winners', pools')
  {}

  function ItemAt(core: Core, best: Ranked, n: nat): Item
    requires n < |best.order| && best.order[n] in best.table && best.order[n].0 in core.records
  {
    Item(best.order[n].0, best.table[best.order[n]].1, |core.records[best.order[n].0].modifiers|)
  }

  /** One more eligible candidate: its own year's slots move, the others stay. */
  lemma AllTrackNext(core: Core, best: Ranked, n: nat, q: Query, byYear: map<string, Cand>,
                     winners: map<string, string>, pools: map<string, seq<Item>>, byYear': map<string, Cand>,
                     winners': map<string, string>, pools': map<string, seq<Item>>)
    requires n < |best.order| && WellFormed(best) && AllTrack(core, best, n, q, byYear, winners, pools)
    requires Eligible(core.records, q, best.order[n])
    requires var year := best.order[n].1;
             Tracks(PoolOf(best, n, core.records, q, year) + [ItemAt(core, best, n)], q.preferBare, year,
                    byYear', winners', pools')
    requires forall y :: y != best.order[n].1 ==> SameSlots(y, byYear, winners, pools, byYear', winners', pools')
    ensures AllTrack(core, best, n + 1, q, byYear', winners', pools')
  {
    var m := n + 1;
    forall y ensures TracksAt(core, best, m, q, y, byYear', winners', pools') {
      PoolNext(best, n, core.records, q, y, best.order[n]);
      if y != best.order[n].1 {
        assert TracksAt(core, best, n, q, y, byYear, winners, pools);
        TracksSame(PoolOf(best, n, core.records, q, y), q.preferBare, y, byYear, winners, pools,
                   byYear', winners', pools');
      }
    }
  }

  /** `_compute_series_full`. */
  method ComputeSeriesFull(core: Core, kernel: Kernel, q: Query, sel: Selection)
    returns (series: map<string, real>, winners: map<string, string>)
    requires kernel.Valid() && kernel.filing == core.filing
    modifies kernel
    ensures kernel.Valid() && IsSeriesPair(core, q, sel, series, winners)
  {
    if !core.hasLexicon {
      return map[], map[];
    }
    var best := kernel.BestRanked(sel);
    KeysDistinct(core.filing, |core.filing.facts|, sel);
    var byYear: map<string, Cand>, pools: map<string, seq<Item>>;
    byYear, winners, pools := PickWinners(core, best, q);
    if Yields(q) {
      PoolsAreKept(core, best, q, byYear, winners, pools);
      byYear, winners := ServeStandardAncestors(core, best, q, byYear, winners, pools);
    }
    series := map year | year in byYear :: byYear[year].2;
    ServedPair(core, best, q, if Yields(q) then winners.Keys else {}, byYear, winners, series);
    assert IsBestRanked(core.filing, |core.filing.facts|, sel, best);
  }

  /** The loop over the best-ranked map. */
  method PickWinners(core: Core, best: Ranked, q: Query)
    returns (byYear: map<string, Cand>, winners: map<string, string>, pools: map<string, seq<Item>>)
    requires WellFormed(best)
    ensures AllTrack(core, best, |best.order|, q, byYear, winners, pools)
    ensures Served(core, best, q, {}, byYear, winners)
  {
    byYear, winners, pools := map[], map[], map[];
    for i := 0 to |best.order|
      invariant AllTrack(core, best, i, q, byYear, winners, pools)
    {
      var (concept, year) := best.order[i];
      if !Eligible(core.records, q, best.order[i]) {
        EligibleSkip(core, best, i, q, byYear, winners, pools);
        continue;
      }
      var item := ItemAt(core, best, i);
      ghost var byYear0, winners0, pools0 := byYear, winners, pools;
      assert TracksAt(core, best, i, q, year, byYear, winners, pools);
      TrackNext(PoolOf(best, i, core.records, q, year), q.preferBare, year, item, byYear, winners, pools);
      pools := pools[year := (if year in pools then pools[year] else []) + [item]];
      var cand := CandOf(item);
      if year !in byYear {
        byYear, winners := byYear[year := cand], winners[year := concept];
      } else if q.preferBare && CandLess(cand, byYear[year]) {
        byYear, winners := byYear[year := cand], winners[year := concept];
      } else if !q.preferBare && Abs(item.value) > Abs(byYear[year].2) {
        byYear, winners := byYear[year := cand], winners[year := concept];
      }
      AllTrackNext(core, best, i, q, byYear0, winners0, pools0, byYear, winners, pools);
    }
    ghost var none: set<string> := {};
    forall year ensures Slots(core, best, q, year in none, byYear, winners, year) {
      TrackedSlots(core, best, q, byYear, winners, pools, year);
    }
  }

  lemma EligibleSkip(core: Core, best: Ranked, n: nat, q: Query, byYear: map<string, Cand>,
                     winners: map<string, string>, pools: map<string, seq<Item>>)
    requires n < |best.order| && WellFormed(best) && AllTrack(core, best, n, q, byYear, winners, pools)
    requires !Eligible(core.records, q, best.order[n])
    ensures AllTrack(core, best, n + 1, q, byYear, winners, pools)
  {
    var m := n + 1;
    forall year ensures TracksAt(core, best, m, q, year, byYear, winners, pools) {
      PoolNext(best, n, core.records, q, year, best.order[n]);
      assert TracksAt(core, best, n, q, year, byYear, winners, pools);
    }
  }

  /** One year's slots once all candidates are read, before or after picks yield. */
  ghost predicate Slots(core: Core, best: Ranked, q: Query, yielding: bool, byYear: map<string, Cand>,
                        winners: map<string, string>, year: string)
    requires WellFormed(best)
  {
    var pool := PoolOf(best, |best.order|, core.records, q, year);
    && (year in byYear <==> pool != []) && (year in winners <==> pool != [])
    && (pool != [] ==>
          && year in byYear && year in winners
          && Serves(core, yielding, q.preferBare, pool, winners[year], byYear[year].2))
  }

  lemma TrackedSlots(core: Core, best: Ranked, q: Query, byYear: map<string, Cand>, winners: map<string, string>,
                     pools: map<string, seq<Item>>,
                     year: string)
    requires WellFormed(best) && AllTrack(core, best, |best.order|, q, byYear, winners, pools)
    ensures Slots(core, best, q, false, byYear, winners, year)
  {
    var pool := PoolOf(best, |best.order|, core.records, q, year);
    assert TracksAt(core, best, |best.order|, q, year, byYear, winners, pools);
    if pool != [] {
      var w :| IsFirstBest(pool, q.preferBare, w) && winners[year] == pool[w].concept
          && byYear[year] == CandOf(pool[w]);
      assert ServesInPlace(core, false, pool, pool[w], winners[year], byYear[year].2);
    }
  }

  /** A standard pick, or one without a standard ancestor in its pool, stays. */
  lemma PickStays(core: Core, best: Ranked, q: Query, byYear: map<string, Cand>, winners: map<string, string>,
                  year: string)
    requires WellFormed(best) && Slots(core, best, q, false, byYear, winners, year) && year in winners
    requires IsStandard(core, winners[year])
               || !HasAncestor(core, PoolOf(best, |best.order|, core.records, q, year), winners[year])
    ensures Slots(core, best, q, true, byYear, winners, year)
  {
    var pool := PoolOf(best, |best.order|, core.records, q, year);
    var w :| IsFirstBest(pool, q.preferBare, w)
        && ServesInPlace(core, false, pool, pool[w], winners[year], byYear[year].2);
    assert ServesInPlace(core, true, pool, pool[w], winners[year], byYear[year].2);
  }

  lemma PickYields(core: Core, best: Ranked, q: Query, byYear: map<string, Cand>, winners: map<string, string>,
                   year: string, nearest: Item)
    requires WellFormed(best) && Slots(core, best, q, false, byYear, winners, year) && year in winners
    requires !IsStandard(core, winners[year])
    requires IsNearest(core, PoolOf(best, |best.order|, core.records, q, year), winners[year], nearest.concept,
                       nearest.value)
    ensures Slots(core, best, q, true, byYear[year := CandOf(nearest)], winners[year := nearest.concept], year)
  {
    var pool := PoolOf(best, |best.order|, core.records, q, year);
    var w :| IsFirstBest(pool, q.preferBare, w)
        && ServesInPlace(core, false, pool, pool[w], winners[year], byYear[year].2);
    var i, d: nat :| IsNearestAt(core, pool, winners[year], i, d) && pool[i].concept == nearest.concept
        && pool[i].value == nearest.value;
    assert HasAncestor(core, pool, pool[w].concept);
    assert ServesInPlace(core, true, pool, pool[w], nearest.concept, nearest.value);
  }

  lemma OtherYear(core: Core, best: Ranked, q: Query, yielding: bool, byYear: map<string, Cand>,
                  winners: map<string, string>,
                  byYear': map<string, Cand>, winners': map<string, string>, year: string)
    requires WellFormed(best) && Slots(core, best, q, yielding, byYear, winners, year)
    requires year in byYear <==> year in byYear'
    requires year in winners <==> year in winners'
    requires year in byYear ==> byYear'[year] == byYear[year]
    requires year in winners ==> winners'[year] == winners[year]
    ensures Slots(core, best, q, yielding, byYear', winners', year)
  {}

  /** Only the slots of `year` may differ. */
  predicate OnlyAt(byYear: map<string, Cand>, winners: map<string, string>, byYear': map<string, Cand>,
                   winners': map<string, string>, year: string) {
    && byYear'.Keys == byYear.Keys && winners'.Keys == winners.Keys
    && (forall y :: y in byYear && y != year ==> byYear'[y] == byYear[y])
    && (forall y :: y in winners && y != year ==> winners'[y] == winners[y])
  }

  /** The body of the loop in `_serve_standard_ancestors`. */
  method ServeStandardAncestor(core: Core, best: Ranked, q: Query, byYear: map<string, Cand>,
                               winners: map<string, string>, pool: seq<Item>, year: string)
    returns (byYear': map<string, Cand>, winners': map<string, string>)
    requires WellFormed(best) && Slots(core, best, q, false, byYear, winners, year) && year in winners && year in byYear
    requires pool == PoolOf(best, |best.order|, core.records, q, year)
    ensures Slots(core, best, q, true, byYear', winners', year) && OnlyAt(byYear, winners, byYear', winners', year)
  {
    var winner := winners[year];
    byYear', winners' := byYear, winners;
    if IsStandard(core, winner) {
      PickStays(core, best, q, byYear, winners, year);
      return;
    }
    var nearest := NearestStandard(core, pool, winner);
    if nearest.None? {
      PickStays(core, best, q, byYear, winners, year);
      return;
    }
    PickYields(core, best, q, byYear, winners, year, nearest.value);
    byYear', winners' := byYear[year := CandOf(nearest.value)], winners[year := nearest.value.concept];
  }

  /** The years in `done` have been through the loop. */
  ghost predicate Served(core: Core, best: Ranked, q: Query, done: set<string>, byYear: map<string, Cand>,
                         winners: map<string, string>)
    requires WellFormed(best)
  {
    forall year :: Slots(core, best, q, year in done, byYear, winners, year)
  }

  lemma ServedNext(core: Core, best: Ranked, q: Query, done: set<string>, byYear: map<string, Cand>,
                   winners: map<string, string>,
                   byYear': map<string, Cand>, winners': map<string, string>, year: string)
    requires WellFormed(best) && Served(core, best, q, done, byYear, winners)
    requires OnlyAt(byYear, winners, byYear', winners', year) && Slots(core, best, q, true, byYear', winners', year)
    ensures Served(core, best, q, done + {year}, byYear', winners')
  {
    forall y ensures Slots(core, best, q, y in done + {year}, byYear', winners', y) {
      if y != year {
        assert Slots(core, best, q, y in done, byYear, winners, y);
        OtherYear(core, best, q, y in done, byYear, winners, byYear', winners', y);
      }
    }
  }

  /** The slots project to the pair. */
  lemma ServedPair(core: Core, best: Ranked, q: Query, done: set<string>, byYear: map<string, Cand>,
                   winners: map<string, string>, series: map<string, real>)
    requires WellFormed(best) && Served(core, best, q, done, byYear, winners)
    requires done == if Yields(q) then winners.Keys else {}
    requires series == map year | year in byYear :: byYear[year].2
    ensures PairOver(core, best, q, series, winners)
  {
    forall year ensures ServesYear(core, best, q, Yields(q), series, winners, year) {
      assert Slots(core, best, q, year in done, byYear, winners, year);
    }
  }

  /** The pools kept for the years are those years' pools. */
  ghost predicate PoolsKept(core: Core, best: Ranked, q: Query, years: set<string>, pools: map<string, seq<Item>>)
    requires WellFormed(best)
  {
    forall year :: year in years ==>
      year in pools && pools[year] == PoolOf(best, |best.order|, core.records, q, year)
  }

  lemma PoolsAreKept(core: Core, best: Ranked, q: Query, byYear: map<string, Cand>, winners: map<string, string>,
                     pools: map<string, seq<Item>>)
    requires WellFormed(best) && AllTrack(core, best, |best.order|, q, byYear, winners, pools)
    requires Served(core, best, q, {}, byYear, winners)
    ensures PoolsKept(core, best, q, winners.Keys, pools)
  {
    ghost var none: set<string> := {};
    forall year | year in winners
      ensures year in pools && pools[year] == PoolOf(best, |best.order|, core.records, q, year)
    {
      assert Slots(core, best, q, year in none, byYear, winners, year);
      PoolIsTracked(core, best, q, byYear, winners, pools, byYear, winners, year);
    }
  }

  /** One turn of that loop. */
  method ServeNextYear(core: Core, best: Ranked, q: Query, pools: map<string, seq<Item>>, byYear: map<string, Cand>,
                       winners: map<string, string>, left: set<string>)
    returns (byYear': map<string, Cand>, winners': map<string, string>, left': set<string>)
    requires WellFormed(best) && left != {} && left <= winners.Keys && PoolsKept(core, best, q, winners.Keys, pools)
    requires Served(core, best, q, winners.Keys - left, byYear, winners)
    ensures left' < left && winners'.Keys == winners.Keys
    ensures Served(core, best, q, winners'.Keys - left', byYear', winners')
  {
    var year :| year in left;
    ghost var done := winners.Keys - left;
    assert Slots(core, best, q, year in done, byYear, winners, year);
    byYear', winners' := ServeStandardAncestor(core, best, q, byYear, winners, pools[year], year);
    ServedNext(core, best, q, done, byYear, winners, byYear', winners', year);
    left' := left - {year};
    assert winners'.Keys - left' == done + {year};
  }

  /** `_serve_standard_ancestors`, for every year of the series. */
  method ServeStandardAncestors(core: Core, best: Ranked, q: Query, byYear0: map<string, Cand>,
                                winners0: map<string, string>, pools: map<string, seq<Item>>)
    returns (byYear: map<string, Cand>, winners: map<string, string>)
    requires WellFormed(best) && PoolsKept(core, best, q, winners0.Keys, pools)
    requires Served(core, best, q, {}, byYear0, winners0)
    ensures Served(core, best, q, winners.Keys, byYear, winners)
  {
    byYear, winners := byYear0, winners0;
    var left := winners.Keys;
    assert winners.Keys - left == {};
    while left != {}
      invariant left <= winners.Keys == winners0.Keys
      invariant Served(core, best, q, winners.Keys - left, byYear, winners)
      decreases left
    {
      byYear, winners, left := ServeNextYear(core, best, q, pools, byYear, winners, left);
    }
    assert winners.Keys - left == winners.Keys;
  }

  lemma PoolIsTracked(core: Core, best: Ranked, q: Query, byYear0: map<string, Cand>, winners0: map<string, string>,
                      pools: map<string, seq<Item>>,
                      byYear: map<string, Cand>, winners: map<string, string>, year: string)
    requires WellFormed(best) && AllTrack(core, best, |best.order|, q, byYear0, winners0, pools)
    requires Slots(core, best, q, false, byYear, winners, year) && year in winners
    ensures year in pools && pools[year] == PoolOf(best, |best.order|, core.records, q, year)
  {
    assert TracksAt(core, best, |best.order|, q, year, byYear0, winners0, pools);
  }

  // ------------------------------------------------------- series and winners agree

  lemma ServedIsInPool(core: Core, yielding: bool, preferBare: bool, pool: seq<Item>, concept: string, value: real)
    requires Serves(core, yielding, preferBare, pool, concept, value)
    ensures exists item :: item in pool && item.concept == concept && item.value == value
  {
    var w :| IsFirstBest(pool, preferBare, w) && ServesInPlace(core, yielding, pool, pool[w], concept, value);
    if IsNearest(core, pool, pool[w].concept, concept, value) {
      var i, d: nat :| IsNearestAt(core, pool, pool[w].concept, i, d) && pool[i].concept == concept
          && pool[i].value == value;
      assert pool[i] in pool;
    } else {
      assert pool[w] in pool;
    }
  }

  /** A year's value is the best-ranked value of the concept named for it, an eligible
      one; also after a standard ancestor took over. */
  ghost predicate Agrees(core: Core, q: Query, sel: Selection, year: string, concept: string, value: real) {
    && Eligible(core.records, q, (concept, year))
    && exists rank :: IsBest(core.filing, |core.filing.facts|, sel, (concept, year), rank, value)
  }

  lemma SeriesAndWinnersAgree(core: Core, q: Query, sel: Selection, series: map<string, real>,
                              winners: map<string, string>)
    requires IsSeriesPair(core, q, sel, series, winners)
    ensures series.Keys == winners.Keys
    ensures forall year :: year in series ==> Agrees(core, q, sel, year, winners[year], series[year])
  {
    if core.hasLexicon {
      var best :| IsBestRanked(core.filing, |core.filing.facts|, sel, best) && PairOver(core, best, q, series, winners);
      forall year ensures year in series <==> year in winners {
        assert ServesYear(core, best, q, Yields(q), series, winners, year);
      }
      forall year | year in series ensures Agrees(core, q, sel, year, winners[year], series[year]) {
        assert ServesYear(core, best, q, Yields(q), series, winners, year);
        var pool := PoolOf(best, |best.order|, core.records, q, year);
        ServedIsInPool(core, Yields(q), q.preferBare, pool, winners[year], series[year]);
        var item :| item in pool && item.concept == winners[year] && item.value == series[year];
        PoolMember(best, |best.order|, core.records, q, year, item);
        var key := (winners[year], year);
        assert IsBest(core.filing, |core.filing.facts|, sel, key, best.table[key].0, best.table[key].1);
      }
    }
  }

  /** The kernel's slice for the concept named for a year holds the year's value. */
  lemma SeriesMatchesSlice(core: Core, q: Query, sel: Selection, series: map<string, real>,
                           winners: map<string, string>, year: string,
                           values: map<string, real>)
    requires IsSeriesPair(core, q, sel, series, winners) && year in series && year in winners
    requires SliceIsBest(core.filing, sel, winners[year], values)
    ensures year in values && values[year] == series[year]
  {
    SeriesAndWinnersAgree(core, q, sel, series, winners);
    var n, key := |core.filing.facts|, (winners[year], year);
    assert Agrees(core, q, sel, year, winners[year], series[year]);
    var rank :| IsBest(core.filing, n, sel, key, rank, series[year]);
    var i :| IsBestAt(core.filing, n, sel, key, i);
    assert Filled(core.filing, n, sel, key);
    var rank' :| IsBest(core.filing, n, sel, key, rank', values[year]);
    BestIsOne(core.filing, n, sel, key, rank, series[year], rank', values[year]);
  }

  lemma ServesUnique(core: Core, yielding: bool, preferBare: bool, pool: seq<Item>, concept: string, value: real,
                     concept': string, value': real)
    requires Serves(core, yielding, preferBare, pool, concept, value)
    requires Serves(core, yielding, preferBare, pool, concept', value')
    ensures concept == concept' && value == value'
  {
    var w :| IsFirstBest(pool, preferBare, w) && ServesInPlace(core, yielding, pool, pool[w], concept, value);
    var x :| IsFirstBest(pool, preferBare, x) && ServesInPlace(core, yielding, pool, pool[x], concept', value');
    FirstBestUnique(pool, preferBare, w, x);
    if yielding && !IsStandard(core, pool[w].concept) && HasAncestor(core, pool, pool[w].concept) {
      NearestUnique(core, pool, pool[w].concept, concept, value, concept', value');
    }
  }

  /** The facts determine the pair, so a cached pair and a fresh one are the same. */
  lemma SeriesPairUnique(core: Core, q: Query, sel: Selection, s: map<string, real>, w: map<string, string>,
                         s': map<string, real>, w': map<string, string>)
    requires IsSeriesPair(core, q, sel, s, w) && IsSeriesPair(core, q, sel, s', w')
    ensures s == s' && w == w'
  {
    if core.hasLexicon {
      var best :| IsBestRanked(core.filing, |core.filing.facts|, sel, best) && PairOver(core, best, q, s, w);
      var best' :| IsBestRanked(core.filing, |core.filing.facts|, sel, best') && PairOver(core, best', q, s', w');
      BestRankedUnique(core.filing, |core.filing.facts|, sel, best, best');
      forall year ensures SameYear(s, w, s', w', year) {
        YearUnique(core, best, q, s, w, s', w', year);
      }
      SamePairs(s, w, s', w');
    }
  }

  predicate SameYear(s: map<string, real>, w: map<string, string>, s': map<string, real>, w': map<string, string>,
                     year: string) {
    && (year in s <==> year in s') && (year in s && year in s' ==> s[year] == s'[year])
    && (year in w <==> year in w') && (year in w && year in w' ==> w[year] == w'[year])
  }

  lemma SamePairs(s: map<string, real>, w: map<string, string>, s': map<string, real>, w': map<string, string>)
    requires forall year :: SameYear(s, w, s', w', year)
    ensures s == s' && w == w'
  {
    forall year ensures (year in s <==> year in s') && (year in w <==> year in w') {
      assert SameYear(s, w, s', w', year);
    }
    forall year | year in s ensures s[year] == s'[year] {
      assert SameYear(s, w, s', w', year);
    }
    forall year | year in w ensures w[year] == w'[year] {
      assert SameYear(s, w, s', w', year);
    }
  }

  lemma YearUnique(core: Core, best: Ranked, q: Query, s: map<string, real>, w: map<string, string>,
                   s': map<string, real>, w': map<string, string>,
                   year: string)
    requires WellFormed(best) && ServesYear(core, best, q, Yields(q), s, w, year)
    requires ServesYear(core, best, q, Yields(q), s', w', year)
    ensures SameYear(s, w, s', w', year)
  {
    var pool := PoolOf(best, |best.order|, core.records, q, year);
    if pool != [] {
      ServesUnique(core, Yields(q), q.preferBare, pool, w[year], s[year], w'[year], s'[year]);
    }
  }

  // --------------------------------------------------------------------------- capex

  const CAPEX_EXCLUDED: set<string> := {"M_SALE", "M_DISPOSAL"}

  const CASH_QUERY := Query("H_CASH", {"M_PPE_CAPEX"}, CAPEX_EXCLUDED, "", true)
  const ASSET_QUERY := Query("H_ASSET", {"M_PPE_CAPEX", "M_INVESTING"}, CAPEX_EXCLUDED, "", true)
  const ACT_QUERY := Query("H_ASSET", {"M_PPE_CAPEX", "M_PURCHASE"}, CAPEX_EXCLUDED, "", true)

  function CapexSelection(lengthClass: string): Selection {
    Selection(Some(false), lengthClass, true)
  }

  /** The coordinate that governs a year: payments, then purchases of classified shape,
      then purchase acts. */
  function Governing<V>(cash: map<string, V>, asset: map<string, V>, act: map<string, V>, year: string): Option<V> {
    if year in cash then Some(cash[year])
    else if year in asset then Some(asset[year])
    else if year in act then Some(act[year])
    else None
  }

  datatype Pair = Pair(series: map<string, real>, winners: map<string, string>)

  ghost predicate CapexPairs(core: Core, lengthClass: string, cash: Pair, asset: Pair, act: Pair) {
    var sel := CapexSelection(lengthClass);
    && IsSeriesPair(core, CASH_QUERY, sel, cash.series, cash.winners)
    && IsSeriesPair(core, ASSET_QUERY, sel, asset.series, asset.winners)
    && IsSeriesPair(core, ACT_QUERY, sel, act.series, act.winners)
  }

  ghost predicate MagnitudesOf(cash: Pair, asset: Pair, act: Pair, merged: map<string, real>) {
    forall year :: match Governing(cash.series, asset.series, act.series, year)
                   case Some(v) => year in merged && merged[year] == Abs(v)
                   case None => year !in merged
  }

  ghost predicate WinnersOf(cash: Pair, asset: Pair, act: Pair, merged: map<string, string>) {
    forall year :: match Governing(cash.winners, asset.winners, act.winners, year)
                   case Some(concept) => year in merged && merged[year] == concept
                   case None => year !in merged
  }

  ghost predicate IsCapexSeries(core: Core, lengthClass: string, merged: map<string, real>) {
    exists cash, asset, act :: CapexPairs(core, lengthClass, cash, asset, act) && MagnitudesOf(cash, asset, act, merged)
  }

  ghost predicate IsCapexWinners(core: Core, lengthClass: string, merged: map<string, string>) {
    exists cash, asset, act :: CapexPairs(core, lengthClass, cash, asset, act) && WinnersOf(cash, asset, act, merged)
  }

  function Magnitudes(series: map<string, real>): map<string, real> {
    map year | year in series :: Abs(series[year])
  }

  method CapexCoordinates(core: Core, kernel: Kernel, lengthClass: string) returns (cash: Pair, asset: Pair, act: Pair)
    requires kernel.Valid() && kernel.filing == core.filing
    modifies kernel
    ensures kernel.Valid() && CapexPairs(core, lengthClass, cash, asset, act)
  {
    var series, winners := ComputeSeriesFull(core, kernel, CASH_QUERY, CapexSelection(lengthClass));
    cash := Pair(series, winners);
    series, winners := ComputeSeriesFull(core, kernel, ASSET_QUERY, CapexSelection(lengthClass));
    asset := Pair(series, winners);
    series, winners := ComputeSeriesFull(core, kernel, ACT_QUERY, CapexSelection(lengthClass));
    act := Pair(series, winners);
  }

  /** `_capex_series_at_class`. */
  method CapexSeriesAtClass(core: Core, kernel: Kernel, lengthClass: string) returns (merged: map<string, real>)
    requires kernel.Valid() && kernel.filing == core.filing
    modifies kernel
    ensures kernel.Valid() && IsCapexSeries(core, lengthClass, merged)
  {
    var cash, asset, act := CapexCoordinates(core, kernel, lengthClass);
    merged := Magnitudes(act.series);
    merged := merged + Magnitudes(asset.series);
    merged := merged + Magnitudes(cash.series);
    assert MagnitudesOf(cash, asset, act, merged);
  }

  /** `_capex_winners_at_class`. */
  method CapexWinnersAtClass(core: Core, kernel: Kernel, lengthClass: string) returns (merged: map<string, string>)
    requires kernel.Valid() && kernel.filing == core.filing
    modifies kernel
    ensures kernel.Valid() && IsCapexWinners(core, lengthClass, merged)
  {
    var cash, asset, act := CapexCoordinates(core, kernel, lengthClass);
    merged := act.winners;
    merged := merged + asset.winners;
    merged := merged + cash.winners;
    assert WinnersOf(cash, asset, act, merged);
  }

  /** The concept named for a year filed its value at the governing coordinate, up to
      sign. */
  ghost predicate CapexAgrees(core: Core, lengthClass: string, year: string, concept: string, magnitude: real) {
    exists value, q :: q in [CASH_QUERY, ASSET_QUERY, ACT_QUERY]
                    && Agrees(core, q, CapexSelection(lengthClass), year, concept, value) && magnitude == Abs(value)
  }

  lemma CapexPairsUnique(core: Core, lengthClass: string, cash: Pair, asset: Pair, act: Pair, cash': Pair,
                         asset': Pair, act': Pair)
    requires CapexPairs(core, lengthClass, cash, asset, act) && CapexPairs(core, lengthClass, cash', asset', act')
    ensures cash == cash' && asset == asset' && act == act'
  {
    var sel := CapexSelection(lengthClass);
    SeriesPairUnique(core, CASH_QUERY, sel, cash.series, cash.winners, cash'.series, cash'.winners);
    SeriesPairUnique(core, ASSET_QUERY, sel, asset.series, asset.winners, asset'.series, asset'.winners);
    SeriesPairUnique(core, ACT_QUERY, sel, act.series, act.winners, act'.series, act'.winners);
  }

  /** A pair's two halves name the same years, and its values are best-ranked. */
  ghost predicate HalvesAgree(core: Core, q: Query, lengthClass: string, pair: Pair) {
    && pair.series.Keys == pair.winners.Keys
    && forall year :: year in pair.series ==>
        Agrees(core, q, CapexSelection(lengthClass), year, pair.winners[year], pair.series[year])
  }

  lemma GoverningAgrees(core: Core, lengthClass: string, cash: Pair, asset: Pair, act: Pair, year: string)
    requires HalvesAgree(core, CASH_QUERY, lengthClass, cash) && HalvesAgree(core, ASSET_QUERY, lengthClass, asset)
    requires HalvesAgree(core, ACT_QUERY, lengthClass, act)
    ensures var v, c := Governing(cash.series, asset.series, act.series, year),
              Governing(cash.winners, asset.winners, act.winners, year);
            && (v.Some? <==> c.Some?)
            && (v.Some? ==> CapexAgrees(core, lengthClass, year, c.value, Abs(v.value)))
  {
    var q, pair := if year in cash.series then CASH_QUERY else if year in asset.series then ASSET_QUERY else ACT_QUERY,
                   if year in cash.series then cash else if year in asset.series then asset else act;
    assert q in [CASH_QUERY, ASSET_QUERY, ACT_QUERY];
    if year in pair.series {
      assert Agrees(core, q, CapexSelection(lengthClass), year, pair.winners[year], pair.series[year]);
    }
  }

  lemma CapexYearAgrees(core: Core, lengthClass: string, cash: Pair, asset: Pair, act: Pair,
                        series: map<string, real>, winners: map<string, string>,
                        year: string)
    requires MagnitudesOf(cash, asset, act, series) && WinnersOf(cash, asset, act, winners)
    requires HalvesAgree(core, CASH_QUERY, lengthClass, cash) && HalvesAgree(core, ASSET_QUERY, lengthClass, asset)
    requires HalvesAgree(core, ACT_QUERY, lengthClass, act)
    ensures year in series <==> year in winners
    ensures year in series && year in winners ==> CapexAgrees(core, lengthClass, year, winners[year], series[year])
  {
    GoverningAgrees(core, lengthClass, cash, asset, act, year);
  }

  /** The two capex surfaces, computed apart, never disagree. */
  lemma CapexSeriesAndWinnersAgree(core: Core, lengthClass: string, series: map<string, real>,
                                   winners: map<string, string>)
    requires IsCapexSeries(core, lengthClass, series) && IsCapexWinners(core, lengthClass, winners)
    ensures series.Keys == winners.Keys
    ensures forall year :: year in series ==> CapexAgrees(core, lengthClass, year, winners[year], series[year])
  {
    var cash, asset, act := SharedPairs(core, lengthClass, series, winners);
    forall year
      ensures year in series <==> year in winners
      ensures year in series && year in winners ==> CapexAgrees(core, lengthClass, year, winners[year], series[year])
    {
      CapexYearAgrees(core, lengthClass, cash, asset, act, series, winners, year);
    }
  }

  lemma SharedPairs(core: Core, lengthClass: string, series: map<string, real>, winners: map<string, string>)
    returns (cash: Pair, asset: Pair, act: Pair)
    requires IsCapexSeries(core, lengthClass, series) && IsCapexWinners(core, lengthClass, winners)
    ensures MagnitudesOf(cash, asset, act, series) && WinnersOf(cash, asset, act, winners)
    ensures HalvesAgree(core, CASH_QUERY, lengthClass, cash) && HalvesAgree(core, ASSET_QUERY, lengthClass, asset)
    ensures HalvesAgree(core, ACT_QUERY, lengthClass, act)
  {
    var sel := CapexSelection(lengthClass);
    cash, asset, act :| CapexPairs(core, lengthClass, cash, asset, act) && MagnitudesOf(cash, asset, act, series);
    var cash', asset', act' :| CapexPairs(core, lengthClass, cash', asset', act')
        && WinnersOf(cash', asset', act', winners);
    CapexPairsUnique(core, lengthClass, cash, asset, act, cash', asset', act');
    SeriesAndWinnersAgree(core, CASH_QUERY, sel, cash.series, cash.winners);
    SeriesAndWinnersAgree(core, ASSET_QUERY, sel, asset.series, asset.winners);
    SeriesAndWinnersAgree(core, ACT_QUERY, sel, act.series, act.winners);
  }
}
