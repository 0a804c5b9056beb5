/** The equivalent-fact scan: an index by atom head and a cached year set against one
    pass over all facts (edgar_sec/apps/client/xbrl.py:727-794,
    edgar_sec/apps/client/equivalence_scan.py:12-57). */
module EquivalentScan {
  import opened Common
  import opened Sorting
  import opened Facts

  /** `duration_length_class`, which is not part of this model. */
  type SpanClasses = (string, string) -> string

  const CLASS_LADDER: seq<string> := ["ANNUAL", "YTD_3Q", "YTD_2Q", "QUARTER"]

  predicate StartsWithV(modifier: string) {
    |modifier| >= 2 && modifier[0] == 'V' && modifier[1] == '_'
  }

  function Required(atom: Atom): set<string> {
    set m | m in atom.modifiers && !StartsWithV(m)
  }

  // -------------------------------------------------------------- one fact's place

  /** Where a fact is pooled: by year and span class, or by year alone. */
  datatype Place = Span(year: string, cls: string) | At(year: string)

  /** The pool a fact belongs to, whatever its concept; nothing for a fact that is
      skipped or has no date. */
  function PlaceOf(fact: Fact, classOf: SpanClasses, classes: set<string>): Option<Place> {
    if fact.dimensions != map[] || fact.value.None? || fact.unit in UNITS_EXCLUDED then None
    else if fact.start != "" && fact.end != "" then
      if classOf(fact.start, fact.end) in classes
      then Some(Span(YearOf(fact.end), classOf(fact.start, fact.end)))
      else None
    else if fact.instant != "" then Some(At(YearOf(fact.instant)))
    else None
  }

  function HeadOf(fact: Fact, records: Records): Option<string> {
    if fact.concept in records then Some(records[fact.concept].head) else None
  }

  /** Equivalent to the atom: same head, and every modifier it requires. */
  predicate Equivalent(fact: Fact, records: Records, atom: Atom) {
    fact.concept in records && records[fact.concept].head == atom.head
        && Required(atom) <= records[fact.concept].modifiers
  }

  // -------------------------------------------------------- the pools in one pass

  type Pools = map<Place, seq<Fact>>

  function Pool(pools: Pools, place: Place): seq<Fact> {
    if place in pools then pools[place] else []
  }

  /** One step of the pass: the pool is created before the fact's concept is looked at. */
  function Step(pools: Pools, fact: Fact, records: Records, classOf: SpanClasses, atom: Atom,
                classes: set<string>): Pools {
    match PlaceOf(fact, classOf, classes)
    case None => pools
    case Some(place) =>
      var keep := Equivalent(fact, records, atom) && IsYearText(place.year);
      pools[place := Pool(pools, place) + (if keep then [fact] else [])]
  }

  function Pass(facts: seq<Fact>, records: Records, classOf: SpanClasses, atom: Atom, classes: set<string>): Pools {
    if facts == [] then map[]
    else Step(Pass(facts[..|facts| - 1], records, classOf, atom, classes), facts[|facts| - 1], records, classOf, atom,
              classes)
  }

  function YearsOf(pools: Pools): set<string> {
    set place | place in pools :: place.year
  }

  // ------------------------------------------------------------------ serving a year

  /** The span class served for a year: the first of the ladder that is asked for and
      carries a fact. */
  function ServedClass(pools: Pools, year: string, classes: set<string>, ladder: seq<string>): Option<string> {
    if ladder == [] then None
    else if ladder[0] in classes && Pool(pools, Span(year, ladder[0])) != [] then Some(ladder[0])
    else ServedClass(pools, year, classes, ladder[1..])
  }

  function ServedPool(pools: Pools, year: string, classes: set<string>): seq<Fact> {
    (match ServedClass(pools, year, classes, CLASS_LADDER)
     case Some(cls) => Pool(pools, Span(year, cls))
     case None => []) + Pool(pools, At(year))
  }

  /** The first fact of largest magnitude. */
  ghost predicate IsFirstLargest(pool: seq<Fact>, fact: Fact) {
    exists i :: IsFirstLargestAt(pool, i) && pool[i] == fact
  }

  ghost predicate IsFirstLargestAt(pool: seq<Fact>, i: int) {
    && 0 <= i < |pool|
    && (forall j :: 0 <= j < |pool| ==> Magnitude(pool[j]) <= Magnitude(pool[i]))
    && (forall j :: 0 <= j < i ==> Magnitude(pool[j]) < Magnitude(pool[i]))
  }

  lemma FirstLargestUnique(pool: seq<Fact>, a: Fact, b: Fact)
    requires IsFirstLargest(pool, a) && IsFirstLargest(pool, b)
    ensures a == b
  {
    var i :| IsFirstLargestAt(pool, i) && pool[i] == a;
    var j :| IsFirstLargestAt(pool, j) && pool[j] == b;
    assert i == j;
  }

  ghost predicate IsLatest(years: set<string>, year: string) {
    year in years && forall y :: y in years ==> StringLe(y, year)
  }

  datatype Served = Served(fact: Fact, year: string, cls: Option<string>, exact: bool)

  /** What serving from these pools means, the year set being `years`: nothing, or the
      first largest fact of the year's pool. */
  ghost predicate ServesFrom(pools: Pools, years: set<string>, records: Records, atom: Atom,
                             requested: Option<string>, classes: set<string>,
                             result: Option<Served>) {
    if requested.None? && years == {} then result.None?
    else
      exists year ::
        && (if requested.Some? then year == requested.value else IsLatest(years, year))
        && ServesYear(pools, year, records, atom, classes, result)
  }

  ghost predicate ServesYear(pools: Pools, year: string, records: Records, atom: Atom, classes: set<string>,
                             result: Option<Served>) {
    var pool := ServedPool(pools, year, classes);
    match result
    case None => pool == []
    case Some(served) =>
      && IsFirstLargest(pool, served.fact)
      && served.year == year
      && served.cls == ServedClass(pools, year, classes, CLASS_LADDER)
      && (served.exact <==> served.fact.concept in records && records[served.fact.concept] == atom)
  }

  /** The reference: one pass over all facts in order, pools and years from the same
      pass. */
  ghost predicate FullScan(facts: seq<Fact>, records: Records, classOf: SpanClasses, atom: Atom,
                           requested: Option<string>, classes: set<string>,
                           result: Option<Served>) {
    var pools := Pass(facts, records, classOf, atom, classes);
    ServesFrom(pools, YearsOf(pools), records, atom, requested, classes, result)
  }

  /** The reference determines its result. */
  lemma FullScanFunctional(facts: seq<Fact>, records: Records, classOf: SpanClasses, atom: Atom,
                           requested: Option<string>, classes: set<string>,
                           r: Option<Served>, s: Option<Served>)
    requires FullScan(facts, records, classOf, atom, requested, classes, r)
    requires FullScan(facts, records, classOf, atom, requested, classes, s)
    ensures r == s
  {
    var pools := Pass(facts, records, classOf, atom, classes);
    var years := YearsOf(pools);
    if requested.Some? || years != {} {
      var y :| (if requested.Some? then y == requested.value else IsLatest(years, y))
          && ServesYear(pools, y, records, atom, classes, r);
      var z :| (if requested.Some? then z == requested.value else IsLatest(years, z))
          && ServesYear(pools, z, records, atom, classes, s);
      if requested.None? { StringLeTotal(y, z); }
      if r.Some? && s.Some? {
        FirstLargestUnique(ServedPool(pools, y, classes), r.value.fact, s.value.fact);
      }
    }
  }

  // ------------------------------------------------------------ what a pool contains

  /** The facts of one pool: those equivalent to the atom whose place it is, in order. */
  function Members(facts: seq<Fact>, records: Records, classOf: SpanClasses, atom: Atom, classes: set<string>,
                   place: Place): seq<Fact> {
    if facts == [] then []
    else
      var last := facts[|facts| - 1];
      Members(facts[..|facts| - 1], records, classOf, atom, classes, place)
        + (if PlaceOf(last, classOf, classes) == Some(place) && Equivalent(last, records, atom)
           && IsYearText(place.year) then [last] else [])
  }

  lemma {:induction false} PoolHoldsMembers(facts: seq<Fact>, records: Records, classOf: SpanClasses, atom: Atom,
                                            classes: set<string>, place: Place)
    ensures Pool(Pass(facts, records, classOf, atom, classes), place)
              == Members(facts, records, classOf, atom, classes, place)
    ensures place in Pass(facts, records, classOf, atom, classes) <==>
              exists fact :: fact in facts && PlaceOf(fact, classOf, classes) == Some(place)
  {
    if facts != [] {
      PoolHoldsMembers(facts[..|facts| - 1], records, classOf, atom, classes, place);
      assert facts == facts[..|facts| - 1] + [facts[|facts| - 1]];
    }
  }

  // ------------------------------------------------------------------- the head index

  function ByHead(facts: seq<Fact>, records: Records, head: Option<string>): seq<Fact> {
    if facts == [] then []
    else
      var last := facts[|facts| - 1];
      ByHead(facts[..|facts| - 1], records, head) + (if HeadOf(last, records) == head then [last] else [])
  }

  type HeadIndex = map<Option<string>, seq<Fact>>

  function Group(index: HeadIndex, head: Option<string>): seq<Fact> {
    if head in index then index[head] else []
  }

  ghost predicate IndexesByHead(facts: seq<Fact>, records: Records, index: HeadIndex) {
    forall head :: Group(index, head) == ByHead(facts, records, head)
  }

  /** `facts_by_head`. */
  method FactsByHead(facts: seq<Fact>, records: Records) returns (index: HeadIndex)
    ensures IndexesByHead(facts, records, index)
  {
    index := map[];
    for i := 0 to |facts|
      invariant IndexesByHead(facts[..i], records, index)
    {
      var fact := facts[i];
      assert facts[..i + 1][..i] == facts[..i];
      var head := HeadOf(fact, records);
      index := index[head := Group(index, head) + [fact]];
    }
    assert facts[..|facts|] == facts;
  }

  /** A head's own facts fill every pool exactly as all facts do. */
  lemma {:induction false} HeadFactsSuffice(facts: seq<Fact>, records: Records, classOf: SpanClasses, atom: Atom,
                                            classes: set<string>, place: Place)
    ensures Members(ByHead(facts, records, Some(atom.head)), records, classOf, atom, classes, place)
         == Members(facts, records, classOf, atom, classes, place)
  {
    if facts != [] {
      var before, last := facts[..|facts| - 1], facts[|facts| - 1];
      HeadFactsSuffice(before, records, classOf, atom, classes, place);
      var group := ByHead(before, records, Some(atom.head));
      assert (group + [last])[..|group|] == group;
      if HeadOf(last, records) == Some(atom.head) {
        assert ByHead(facts, records, Some(atom.head)) == group + [last];
      } else {
        assert ByHead(facts, records, Some(atom.head)) == group;
        assert !Equivalent(last, records, atom);
      }
    }
  }

  // ---------------------------------------------------------------- the default years

  /** `default_year_set`: the years of every fact that has a place. */
  method DefaultYearSet(facts: seq<Fact>, classOf: SpanClasses, classes: set<string>) returns (years: set<string>)
    ensures years == PlacedYears(facts, classOf, classes)
  {
    years := {};
    for i := 0 to |facts|
      invariant years == PlacedYears(facts[..i], classOf, classes)
    {
      var fact := facts[i];
      assert facts[..i + 1] == facts[..i] + [fact];
      PlacedYearsSnoc(facts[..i], classOf, classes, fact);
      if fact.dimensions != map[] || fact.value.None? {
        continue;
      }
      if fact.unit in UNITS_EXCLUDED {
        continue;
      }
      if fact.start != "" && fact.end != "" {
        if classOf(fact.start, fact.end) !in classes {
          continue;
        }
        years := years + {YearOf(fact.end)};
      } else if fact.instant != "" {
        years := years + {YearOf(fact.instant)};
      }
    }
    assert facts[..|facts|] == facts;
  }

  function PlacedYears(facts: seq<Fact>, classOf: SpanClasses, classes: set<string>): set<string> {
    set fact | fact in facts && PlaceOf(fact, classOf, classes).Some? :: PlaceOf(fact, classOf, classes).value.year
  }

  lemma PlacedYearsSnoc(facts: seq<Fact>, classOf: SpanClasses, classes: set<string>, fact: Fact)
    ensures PlacedYears(facts + [fact], classOf, classes)
         == PlacedYears(facts, classOf, classes)
            + (match PlaceOf(fact, classOf, classes) case Some(place) => {place.year} case None => {})
  {}

  /** The years of the single pass are the population-wide ones, whatever the atom. */
  lemma PassYears(facts: seq<Fact>, records: Records, classOf: SpanClasses, atom: Atom, classes: set<string>)
    ensures YearsOf(Pass(facts, records, classOf, atom, classes)) == PlacedYears(facts, classOf, classes)
  {
    var pools := Pass(facts, records, classOf, atom, classes);
    forall y ensures y in YearsOf(pools) <==> y in PlacedYears(facts, classOf, classes) {
      if y in YearsOf(pools) {
        var place :| place in pools && place.year == y;
        PoolHoldsMembers(facts, records, classOf, atom, classes, place);
      }
      if y in PlacedYears(facts, classOf, classes) {
        var fact :| fact in facts && PlaceOf(fact, classOf, classes).Some?
            && PlaceOf(fact, classOf, classes).value.year == y;
        PoolHoldsMembers(facts, records, classOf, atom, classes, PlaceOf(fact, classOf, classes).value);
      }
    }
  }

  // ------------------------------------------------------------------- pools that agree

  ghost predicate SamePools(a: Pools, b: Pools) {
    forall place :: Pool(a, place) == Pool(b, place)
  }

  lemma {:induction false} SameServedClass(a: Pools, b: Pools, year: string, classes: set<string>, ladder: seq<string>)
    requires SamePools(a, b)
    ensures ServedClass(a, year, classes, ladder) == ServedClass(b, year, classes, ladder)
  {
    if ladder != [] {
      assert Pool(a, Span(year, ladder[0])) == Pool(b, Span(year, ladder[0]));
      SameServedClass(a, b, year, classes, ladder[1..]);
    }
  }

  /** The pools of the head's facts hold what the pools of all facts hold. */
  lemma IndexAgreesWithScan(facts: seq<Fact>, records: Records, classOf: SpanClasses, atom: Atom, classes: set<string>)
    ensures SamePools(Pass(ByHead(facts, records, Some(atom.head)), records, classOf, atom, classes),
                      Pass(facts, records, classOf, atom, classes))
  {
    forall place ensures Pool(Pass(ByHead(facts, records, Some(atom.head)), records, classOf, atom, classes), place)
                      == Pool(Pass(facts, records, classOf, atom, classes), place) {
      HeadFactsSuffice(facts, records, classOf, atom, classes, place);
      PoolHoldsMembers(facts, records, classOf, atom, classes, place);
      PoolHoldsMembers(ByHead(facts, records, Some(atom.head)), records, classOf, atom, classes, place);
    }
  }

  // --------------------------------------------------------------------- the scanner

  /** The facade's scan state: a lazily built index and a cache of year sets. */
  class Scanner {
    const facts: seq<Fact>
    const records: Records
    const classOf: SpanClasses
    var headIndex: Option<HeadIndex>
    var defaultYears: map<set<string>, set<string>>

    ghost predicate Valid()
      reads this
    {
      && (headIndex.Some? ==> IndexesByHead(facts, records, headIndex.value))
      && (forall classes :: classes in defaultYears ==> defaultYears[classes] == PlacedYears(facts, classOf, classes))
    }

    constructor (facts: seq<Fact>, records: Records, classOf: SpanClasses)
      ensures Valid() && this.facts == facts && this.records == records && this.classOf == classOf
    {
      this.facts, this.records, this.classOf := facts, records, classOf;
      this.headIndex, this.defaultYears := None, map[];
    }

    /** `cached_default_years`. */
    method CachedDefaultYears(classes: set<string>) returns (years: set<string>)
      requires Valid()
      modifies this`defaultYears
      ensures Valid() && years == PlacedYears(facts, classOf, classes)
      ensures defaultYears == old(defaultYears)[classes := years]
    {
      if classes in defaultYears {
        years := defaultYears[classes];
      } else {
        years := DefaultYearSet(facts, classOf, classes);
        defaultYears := defaultYears[classes := years];
      }
    }

    /** `_equivalent_for_atom`: whatever earlier calls cached, the result is that of one
        pass over all facts. */
    method EquivalentForAtom(atom: Atom, requested: Option<string>, classes: set<string>)
      returns (result: Option<Served>)
      requires Valid()
      modifies this
      ensures Valid() && FullScan(facts, records, classOf, atom, requested, classes, result)
    {
      if headIndex.None? {
        var index := FactsByHead(facts, records);
        headIndex := Some(index);
      }
      var group := Group(headIndex.value, Some(atom.head));
      var pools: Pools := map[];
      for i := 0 to |group|
        invariant Valid() && headIndex.Some?
        invariant pools == Pass(group[..i], records, classOf, atom, classes)
      {
        var fact := group[i];
        ghost var next := Step(pools, fact, records, classOf, atom, classes);
        PassNext(group, i, records, classOf, atom, classes);
        if fact.dimensions != map[] || fact.value.None? {
          continue;
        }
        if fact.unit in UNITS_EXCLUDED {
          continue;
        }
        var place: Option<Place> := None;
        if fact.start != "" && fact.end != "" {
          var cls := classOf(fact.start, fact.end);
          if cls !in classes {
            continue;
          }
          place := Some(Span(YearOf(fact.end), cls));
        } else if fact.instant != "" {
          place := Some(At(YearOf(fact.instant)));
        }
        assert place == PlaceOf(fact, classOf, classes);
        if place.Some? {
          CreatingIsStep(pools, place.value, fact);
          pools := pools[place.value := Pool(pools, place.value)];
        }
        if fact.concept !in records || records[fact.concept].head != atom.head {
          continue;
        }
        if !(Required(atom) <= records[fact.concept].modifiers) {
          continue;
        }
        if place.Some? && IsYearText(place.value.year) {
          pools := pools[place.value := Pool(pools, place.value) + [fact]];
        }
        assert pools == next;
      }
      assert group[..|group|] == group;
      var year: string;
      if requested.Some? {
        year := requested.value;
      } else {
        var years := CachedDefaultYears(classes);
        if years == {} {
          PassYears(facts, records, classOf, atom, classes);
          return None;
        }
        year := Latest(years);
      }
      result := ServeYear(pools, year, records, atom, classes);
      ScannedYear(facts, records, classOf, atom, requested, classes, year, result);
    }
  }

  lemma PassNext(facts: seq<Fact>, i: nat, records: Records, classOf: SpanClasses, atom: Atom, classes: set<string>)
    requires i < |facts|
    ensures Pass(facts[..i + 1], records, classOf, atom, classes)
         == Step(Pass(facts[..i], records, classOf, atom, classes), facts[i], records, classOf, atom, classes)
  {
    assert facts[..i + 1][..i] == facts[..i];
  }

  lemma CreatingIsStep(pools: Pools, place: Place, fact: Fact)
    ensures pools[place := Pool(pools, place)] == pools[place := Pool(pools, place) + []]
    ensures pools[place := Pool(pools, place)][place := Pool(pools, place) + [fact]]
              == pools[place := Pool(pools, place) + [fact]]
  {
    assert Pool(pools, place) + [] == Pool(pools, place);
  }

  lemma ScannedYear(facts: seq<Fact>, records: Records, classOf: SpanClasses, atom: Atom, requested: Option<string>,
                    classes: set<string>,
                    year: string, result: Option<Served>)
    requires if requested.Some? then year == requested.value else IsLatest(PlacedYears(facts, classOf, classes), year)
    requires ServesYear(Pass(ByHead(facts, records, Some(atom.head)), records, classOf, atom, classes), year, records,
                        atom, classes, result)
    ensures FullScan(facts, records, classOf, atom, requested, classes, result)
  {
    IndexAgreesWithScan(facts, records, classOf, atom, classes);
    PassYears(facts, records, classOf, atom, classes);
    SameYearServed(Pass(ByHead(facts, records, Some(atom.head)), records, classOf, atom, classes),
                   Pass(facts, records, classOf, atom, classes), year, records, atom, classes, result);
  }

  lemma SameYearServed(a: Pools, b: Pools, year: string, records: Records, atom: Atom, classes: set<string>,
                       result: Option<Served>)
    requires SamePools(a, b) && ServesYear(a, year, records, atom, classes, result)
    ensures ServesYear(b, year, records, atom, classes, result)
  {
    SameServedClass(a, b, year, classes, CLASS_LADDER);
    assert Pool(a, At(year)) == Pool(b, At(year));
    forall cls ensures Pool(a, Span(year, cls)) == Pool(b, Span(year, cls)) {}
    assert ServedPool(a, year, classes) == ServedPool(b, year, classes);
  }

  /** `max(years)`. */
  method Latest(years: set<string>) returns (year: string)
    requires years != {}
    ensures IsLatest(years, year)
  {
    year :| year in years;
    StringLeTotal(year, year);
    var rest := years - {year};
    while rest != {}
      invariant year in years && rest <= years
      invariant forall y :: y in years && y !in rest ==> StringLe(y, year)
      decreases rest
    {
      var y :| y in rest;
      StringLeTotal(y, year);
      if !StringLe(y, year) {
        LatestStep(years - rest, year, y);
        year := y;
      }
      rest := rest - {y};
    }
  }

  lemma LatestStep(years: set<string>, year: string, later: string)
    requires StringLe(year, later) && forall y :: y in years ==> StringLe(y, year)
    ensures forall y :: y in years ==> StringLe(y, later)
    ensures StringLe(later, later)
  {
    StringLeTotal(later, later);
    forall y | y in years ensures StringLe(y, later) {
      StringLeTransitive(y, year, later);
    }
  }

  /** `max(pool, key=abs)`: the first fact of largest magnitude. */
  method FirstLargest(pool: seq<Fact>) returns (best: nat)
    requires pool != []
    ensures IsFirstLargestAt(pool, best)
  {
    best := 0;
    for i := 1 to |pool|
      invariant IsFirstLargestAt(pool[..i], best)
    {
      assert forall j :: 0 <= j < i ==> pool[..i + 1][j] == pool[..i][j];
      if Magnitude(pool[i]) > Magnitude(pool[best]) {
        best := i;
      }
    }
    assert pool[..|pool|] == pool;
  }

  method ServeYear(pools: Pools, year: string, records: Records, atom: Atom, classes: set<string>)
    returns (result: Option<Served>)
    ensures ServesYear(pools, year, records, atom, classes, result)
  {
    var pool: seq<Fact> := [];
    var served: Option<string> := None;
    for i := 0 to |CLASS_LADDER|
      invariant pool == [] && served == None
      invariant ServedClass(pools, year, classes, CLASS_LADDER[i..]) == ServedClass(pools, year, classes, CLASS_LADDER)
    {
      var cls := CLASS_LADDER[i];
      assert CLASS_LADDER[i..][1..] == CLASS_LADDER[i + 1..];
      if cls in classes && Pool(pools, Span(year, cls)) != [] {
        pool, served := Pool(pools, Span(year, cls)), Some(cls);
        break;
      }
    }
    assert served == ServedClass(pools, year, classes, CLASS_LADDER);
    pool := pool + Pool(pools, At(year));
    if pool == [] {
      return None;
    }
    var best := FirstLargest(pool);
    var fact := pool[best];
    return Some(Served(fact, year, served, fact.concept in records && records[fact.concept] == atom));
  }

  // --------------------------------------------------------- what the scan guarantees

  lemma {:induction false} MemberQualifies(facts: seq<Fact>, records: Records, classOf: SpanClasses, atom: Atom,
                                           classes: set<string>, place: Place, fact: Fact)
    ensures fact in Members(facts, records, classOf, atom, classes, place) <==>
              fact in facts && PlaceOf(fact, classOf, classes) == Some(place) && Equivalent(fact, records, atom)
                  && IsYearText(place.year)
  {
    if facts != [] {
      MemberQualifies(facts[..|facts| - 1], records, classOf, atom, classes, place, fact);
      assert facts == facts[..|facts| - 1] + [facts[|facts| - 1]];
    }
  }

  function Rank(ladder: seq<string>, cls: string): nat {
    if ladder == [] || ladder[0] == cls then 0 else 1 + Rank(ladder[1..], cls)
  }

  ghost predicate MayServe(pools: Pools, year: string, classes: set<string>, ladder: seq<string>, cls: string) {
    cls in ladder && cls in classes && Pool(pools, Span(year, cls)) != []
  }

  lemma {:induction false} ServedClassIsFirst(pools: Pools, year: string, classes: set<string>, ladder: seq<string>,
                                              cls: string)
    ensures var r := ServedClass(pools, year, classes, ladder);
            && (r.Some? ==> MayServe(pools, year, classes, ladder, r.value))
            && (MayServe(pools, year, classes, ladder, cls) ==> r.Some? && Rank(ladder, r.value) <= Rank(ladder, cls))
  {
    if ladder != [] && !MayServe(pools, year, classes, ladder, ladder[0]) {
      ServedClassIsFirst(pools, year, classes, ladder[1..], cls);
      assert ladder == [ladder[0]] + ladder[1..];
    }
  }

  /** A fact the pool of a year may serve, for one class. */
  ghost predicate Candidate(facts: seq<Fact>, records: Records, classOf: SpanClasses, atom: Atom,
                            classes: set<string>, place: Place, fact: Fact) {
    fact in facts && PlaceOf(fact, classOf, classes) == Some(place) && Equivalent(fact, records, atom)
        && IsYearText(place.year)
  }

  lemma PoolHoldsCandidates(facts: seq<Fact>, records: Records, classOf: SpanClasses, atom: Atom,
                            classes: set<string>, place: Place, fact: Fact)
    ensures fact in Pool(Pass(facts, records, classOf, atom, classes), place) <==>
              Candidate(facts, records, classOf, atom, classes, place, fact)
  {
    PoolHoldsMembers(facts, records, classOf, atom, classes, place);
    MemberQualifies(facts, records, classOf, atom, classes, place, fact);
  }

  lemma ServedIsInPool(pools: Pools, year: string, records: Records, atom: Atom, classes: set<string>, s: Served)
    requires ServesYear(pools, year, records, atom, classes, Some(s))
    ensures s.fact in Pool(pools, At(year)) || (s.cls.Some? && s.fact in Pool(pools, Span(year, s.cls.value)))
  {
    assert s.fact in ServedPool(pools, year, classes);
  }

  lemma ServedIsLargest(pools: Pools, year: string, records: Records, atom: Atom, classes: set<string>, s: Served,
                        f: Fact)
    requires ServesYear(pools, year, records, atom, classes, Some(s))
    requires f in Pool(pools, At(year)) || (s.cls.Some? && f in Pool(pools, Span(year, s.cls.value)))
    ensures Magnitude(f) <= Magnitude(s.fact)
  {
    var pool := ServedPool(pools, year, classes);
    assert f in pool;
    var j :| 0 <= j < |pool| && pool[j] == f;
  }

  /** A pooled year never mixes span classes: the served fact is an instant of the year
      or of the named class. */
  lemma ServedFactQualifies(facts: seq<Fact>, records: Records, classOf: SpanClasses, atom: Atom,
                            requested: Option<string>, classes: set<string>,
                            s: Served)
    requires FullScan(facts, records, classOf, atom, requested, classes, Some(s))
    ensures if requested.Some? then s.year == requested.value
              else IsLatest(PlacedYears(facts, classOf, classes), s.year)
    ensures || Candidate(facts, records, classOf, atom, classes, At(s.year), s.fact)
            || (s.cls.Some? && Candidate(facts, records, classOf, atom, classes, Span(s.year, s.cls.value), s.fact))
  {
    var pools := Pass(facts, records, classOf, atom, classes);
    PassYears(facts, records, classOf, atom, classes);
    ServedIsInPool(pools, s.year, records, atom, classes, s);
    PoolHoldsCandidates(facts, records, classOf, atom, classes, At(s.year), s.fact);
    if s.cls.Some? {
      PoolHoldsCandidates(facts, records, classOf, atom, classes, Span(s.year, s.cls.value), s.fact);
    }
  }

  /** No asked-for class earlier on the ladder has a candidate that year, and no instant
      or candidate of the named class is larger. */
  lemma ServedFactBeats(facts: seq<Fact>, records: Records, classOf: SpanClasses, atom: Atom,
                        requested: Option<string>, classes: set<string>,
                        s: Served, place: Place, f: Fact)
    requires FullScan(facts, records, classOf, atom, requested, classes, Some(s))
    requires place.year == s.year && Candidate(facts, records, classOf, atom, classes, place, f)
    ensures match place
            case At(_) => Magnitude(f) <= Magnitude(s.fact)
            case Span(_, cls) => cls in CLASS_LADDER ==>
              && s.cls.Some? && Rank(CLASS_LADDER, s.cls.value) <= Rank(CLASS_LADDER, cls)
              && (cls == s.cls.value ==> Magnitude(f) <= Magnitude(s.fact))
  {
    var pools := Pass(facts, records, classOf, atom, classes);
    PoolHoldsCandidates(facts, records, classOf, atom, classes, place, f);
    if place.Span? {
      ServedClassIsFirst(pools, s.year, classes, CLASS_LADDER, place.cls);
    }
    if place.At? || s.cls == Some(place.cls) {
      ServedIsLargest(pools, s.year, records, atom, classes, s, f);
    }
  }

  ghost predicate NoCandidates(facts: seq<Fact>, records: Records, classOf: SpanClasses, atom: Atom,
                               classes: set<string>, year: string) {
    forall place: Place, f :: place.year == year && (place.Span? ==> place.cls in CLASS_LADDER) ==>
        !Candidate(facts, records, classOf, atom, classes, place, f)
  }

  /** Nothing is served only when no fact is dated at all or the year asked for, or the
      latest, has no candidate. */
  lemma NothingServed(facts: seq<Fact>, records: Records, classOf: SpanClasses, atom: Atom, requested: Option<string>,
                      classes: set<string>)
    returns (year: string)
    requires FullScan(facts, records, classOf, atom, requested, classes, None)
    ensures || (requested.None? && PlacedYears(facts, classOf, classes) == {})
            || ((if requested.Some? then year == requested.value
                 else IsLatest(PlacedYears(facts, classOf, classes), year))
                && NoCandidates(facts, records, classOf, atom, classes, year))
  {
    var pools := Pass(facts, records, classOf, atom, classes);
    PassYears(facts, records, classOf, atom, classes);
    year := "";
    if requested.Some? || YearsOf(pools) != {} {
      year :| (if requested.Some? then year == requested.value else IsLatest(YearsOf(pools), year))
              && ServesYear(pools, year, records, atom, classes, None);
      assert ServedPool(pools, year, classes) == [];
      forall place: Place, f | place.year == year && (place.Span? ==> place.cls in CLASS_LADDER)
        ensures !Candidate(facts, records, classOf, atom, classes, place, f)
      {
        PoolHoldsCandidates(facts, records, classOf, atom, classes, place, f);
        if place.Span? {
          ServedClassIsFirst(pools, year, classes, CLASS_LADDER, place.cls);
          if Candidate(facts, records, classOf, atom, classes, place, f) {
            NotAskedFor(facts, records, classOf, atom, classes, place, f);
          }
        }
      }
    }
  }

  lemma NotAskedFor(facts: seq<Fact>, records: Records, classOf: SpanClasses, atom: Atom, classes: set<string>,
                    place: Place, f: Fact)
    requires Candidate(facts, records, classOf, atom, classes, place, f) && place.Span?
    ensures place.cls in classes
  {}

  // ------------------------------------------------------------ candidates, spelled out

  /** The fact is plain, a number, and not in a unit of counts or ratios. */
  ghost predicate Plain(fact: Fact) {
    && |fact.dimensions| == 0 && fact.value.Some?
    && fact.unit != "pure" && fact.unit != "shares" && fact.unit != "item" && fact.unit != "ratio"
  }

  /** The record has the atom's head and every modifier of the atom that is no valence. */
  ghost predicate RecordMatches(records: Records, concept: string, atom: Atom) {
    && concept in records && records[concept].head == atom.head
    && forall m :: m in atom.modifiers && !("V_" <= m) ==> m in records[concept].modifiers
  }

  ghost predicate YearOfDate(date: string, year: string) {
    && date != "" && year <= date && |year| == 4 && forall i :: 0 <= i < 4 ==> '0' <= year[i] <= '9'
  }

  lemma ValenceIff(m: string)
    ensures StartsWithV(m) <==> "V_" <= m
  {}

  lemma RecordIff(fact: Fact, records: Records, atom: Atom)
    ensures Equivalent(fact, records, atom) <==> RecordMatches(records, fact.concept, atom)
  {
    forall m ensures StartsWithV(m) <==> "V_" <= m {
      ValenceIff(m);
    }
  }

  lemma YearOfDateIff(date: string, year: string)
    ensures date != "" && YearOf(date) == year && IsYearText(year) <==> YearOfDate(date, year)
  {
    if year <= date && |year| == 4 {
      assert date[..4] == year;
      assert |date| == 4 ==> date == year;
    }
  }

  /** A duration counts for the year its span ends in and the class of its span, an
      instant, or a fact without both ends of a span, for the year of its date. */
  lemma CandidateMeans(facts: seq<Fact>, records: Records, classOf: SpanClasses, atom: Atom, classes: set<string>,
                       place: Place, fact: Fact)
    ensures Candidate(facts, records, classOf, atom, classes, place, fact) <==>
              && fact in facts && Plain(fact) && RecordMatches(records, fact.concept, atom)
              && (match place
                  case Span(year, cls) =>
                    && fact.start != "" && fact.end != "" && YearOfDate(fact.end, year)
                    && cls == classOf(fact.start, fact.end) && cls in classes
                  case At(year) => (fact.start == "" || fact.end == "") && YearOfDate(fact.instant, year))
  {
    RecordIff(fact, records, atom);
    YearOfDateIff(fact.end, place.year);
    YearOfDateIff(fact.instant, place.year);
    assert |fact.dimensions| == 0 <==> fact.dimensions == map[];
  }

  /** The ladder: annual, then three quarters to date, then two, then a quarter. */
  lemma LadderOrder()
    ensures Rank(CLASS_LADDER, "ANNUAL") < Rank(CLASS_LADDER, "YTD_3Q")
    ensures Rank(CLASS_LADDER, "YTD_3Q") < Rank(CLASS_LADDER, "YTD_2Q") < Rank(CLASS_LADDER, "QUARTER")
    ensures forall cls :: cls in CLASS_LADDER <==> cls in {"ANNUAL", "YTD_3Q", "YTD_2Q", "QUARTER"}
  {
    assert CLASS_LADDER[1..][1..][1..] == ["QUARTER"] && CLASS_LADDER[1..][1..] == ["YTD_2Q", "QUARTER"];
  }

  /** Pools and groups keep the order of the facts: a longer fact list only adds at the
      end. */
  lemma {:induction false} OrderKept(facts: seq<Fact>, n: nat, records: Records, classOf: SpanClasses, atom: Atom,
                                     classes: set<string>, place: Place, head: Option<string>)
    requires n <= |facts|
    ensures Members(facts[..n], records, classOf, atom, classes, place)
         <= Members(facts, records, classOf, atom, classes, place)
    ensures ByHead(facts[..n], records, head) <= ByHead(facts, records, head)
  {
    if n < |facts| {
      var before := facts[..|facts| - 1];
      OrderKept(before, n, records, classOf, atom, classes, place, head);
      assert before[..n] == facts[..n];
    } else {
      assert facts[..n] == facts;
    }
  }
}
