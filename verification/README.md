# Verified models of the filing catalogue and the client

The models follow fourteen source files of `edgar_sec`: what their functions
compute, in the order they compute it, on mathematical values. The proofs are
about whole operations and whole runs.

- **Date selections** (`filters.py`): parser, normaliser, printer, JSON codec and
  matching. Days are ordinals, years are integers, and the timeline is unbounded in
  both directions. The modules go from intervals (`Intervals`, `YearSegments`) over
  clauses and their canonical form (`DateSelection`, `DateNormalisation`) to text
  (`Text`, `DateGrammar`, `DateRoundTrip`) and JSON (`DateJson`); `DateTheorems` and
  `DateReparse` hold the results that need all of them. `DateLanguage` and `DateTexts`
  give the language itself: which texts are accepted and which dates each means. The canonical form is specified by what it
  selects, not by how it is computed, and is shown to be the only value with that
  meaning.
- **Batch streaming** (`batch.py`, module `Batch`): the pool driver against a scheduler
  that may finish futures in any order and break a pool at submit or at result.
- **Facade cache** (`facade.py`): `FacadeCache` as a class that refines an access
  history, and `FacadeThreads` as a step system of any number of threads in which each
  section under the main lock is one step; `FacadeRecency` follows the history there.
- **Subset-sum fallback** (`equity_rollforward.py`, module `EquitySearch`).
- **Word segmentation** (`catalog.py`, module `Segmentation`).
- **Metric serving** (`financials_core.py`, `financials_capex.py`, `kernel.py`):
  `CalcDistance` over `Walks`, `MetricKernel`, `MetricSeries`, `PerShareMerge`;
  `MetricMeaning` says what is served in terms of facts and records.
- **Presentation arcs** (`location.py`, `presentation.py`, module `PresentationGraph`).
- **Equivalent facts** (`xbrl.py`, `equivalence_scan.py`, module `EquivalentScan`).
- **Archive URLs** (`sec_urls.py`, `identity.py`): `Identity`, `ArchiveUrl`, and `ArchiveAcceptance` for what
  the validator accepts, character by character.

`Common`, `Sorting`, `Text`, `Walks`, `Calendar` and `Facts` are shared.

## Where the code and its promise part

Each of these has a lemma at a concrete input and one with the exact condition under
which the promise holds.

- Normalising `@Q1[1900..],@Q2` raises (`DateTheorems.FirstYearIsAnEdge`). The segment
  before 1900 ends in 1899, which the clause constructor refuses although no user
  wrote it (`edgar_sec/domain/filing_catalog/filters.py:109-111`, `:468-490`). The
  exact condition, `YearEdge`, can be read off the clauses: one clause is open at an
  end, another stops at the last valid year on that side, and selects a value no open
  clause selects (`DateNormalisation.NormalizeDateSelection`).
- Coverage of every date is dropped even beside recurring clauses
  (`edgar_sec/domain/filing_catalog/filters.py:449-453`), which then filter
  (`DateTheorems.AllDateCoverageLosesADate`, `DateSelection.NormalFormPreservesMatches`).
- The printer attaches a clause's years to its last value only
  (`edgar_sec/domain/filing_catalog/filters.py:667-680`). Its text can therefore select
  more than the selection, and exactly which dates it gains is known
  (`DateReparse.PrinterWidens`, `ReparsedMatchesExactly`). It can also be refused: both
  quarters of 1900..2015 print as `@Q1,@Q2[1900..2015]`, which needs the year 1899
  (`FirstYearTextRefused`). And the parser accepts only years from 1900 up to a moving
  bound, so an absolute end outside them is printed and refused
  (`EarlyDayTextRefused`). These two are the only refusals, the first under
  `PrintedYearEdge`, a condition on the selection alone (`PrintedTextRefusedIff`).
- Equal selections have equal values over an unbounded timeline and per granularity:
  `..9999-12-31` differs from `..` (`DateReparse.LastDayIsNotOpenEnd`,
  `DateTheorems.CalendarDaysDecide`), and `@Q1` from its three months
  (`DateTheorems.GranularitiesAreNotUnified`).
- A facade is built at most once exactly when nothing is evicted or cleared; the
  docstring states no such limit (`edgar_sec/apps/client/facade.py:55-57`;
  `FacadeThreads.EvictionClash`, `BuiltOnceIffNothingLeaves`). After such a clash a
  facade can be published over an older entry, and the cache is no longer in order of
  use (`FacadeRecency.InOrderIff`).
- `_segment_word` takes the greediest split and then rejects it if it is all stop
  words; it does not look for another split with a content piece
  (`Segmentation.AdmissibleSplitMissed`, `StaysWholeIff`).
- In `_eps_merge` two disagreeing candidates of a short span remove their key for
  good: a longer span that arrives later is not served, although the docstring lets
  the longest span win (`edgar_sec/apps/client/financials_core.py:632-636`;
  `PerShareMerge.ShortClashKillsLongSpan`, `MeetsIntentIff`). When candidates arrive
  longest first it is served, and values do not depend on the order; the provenance of
  equal values still does (`ProvenanceFollowsArrival`).
- `AccessionNumber.from_any` accepts 18 digits, a newline and a hyphen, because the
  end anchor of its pattern matches before a final newline
  (`edgar_sec/domain/identity.py:9`, `:71-74`; `Identity.NewlineAccepted`,
  `FromAnyByDigits`). The identity is that of the digits. The docstring of
  `normalized` speaks of 20 characters; the code gives 18
  (`Identity.OneIdentityIffSameDigits`).
- The archive printer builds a URL for any document path. The parser reads it back
  exactly for `ReadableDocument` paths and the validator accepts it exactly for
  `SafeDocument` paths; both are tests on the path alone
  (`ArchiveUrl.TrailingSpaceNotReadBack`, `ClimbingPathRefused`, `ParsePrintedIff`,
  `ValidatePrintedIff`).

## Model

| member | source | states |
|---|---|---|
| Intervals.MergeIntervals | edgar_sec/domain/filing_catalog/filters.py:416-438 | the merged spans cover exactly what the input spans cover, are sorted, disjoint and never adjacent; the shift saturates at the last representable day |
| Intervals.CanonicalRunsUnique | edgar_sec/domain/filing_catalog/filters.py:552-556 | two canonical run lists that label every point of the unbounded line alike are equal: the basis of equal values for equal selections |
| Intervals.CanonicalIntervalsUnique | edgar_sec/domain/filing_catalog/filters.py:552-556 | the same for plain intervals: coverage determines the canonical list |
| YearSegments.CoversYearIsContainment | edgar_sec/domain/filing_catalog/filters.py:456-465 | the segment test is containment, for every span that covers or misses the segment entirely |
| YearSegments.SegmentYears | edgar_sec/domain/filing_catalog/filters.py:468-490 | the segments partition all years and every input span covers or misses each segment entirely |
| YearSegments.PartitionExact | edgar_sec/domain/filing_catalog/filters.py:468-490 | every year, however far out, lies in exactly one segment |
| YearSegments.LabelSegments | edgar_sec/domain/filing_catalog/filters.py:514-538 | relabelling gives the maximal runs of years with one constant nonempty value set |
| Calendar.OrdinalOrder | edgar_sec/domain/filing_catalog/filters.py:741-757 | comparing day ordinals is comparing dates |
| Calendar.FromOrdinalOfDate | edgar_sec/domain/filing_catalog/filters.py:238-239 | ordinal and (year, month, day) are inverse, for month lengths per section 5.7 of RFC 3339 |
| DateSelection.NormalFormsEqualIffEquivalent | edgar_sec/domain/filing_catalog/filters.py:552-556 | canonicity: two clause lists normalise to the same value exactly when they keep the same days and select the same (granularity, year, value) triples |
| DateSelection.NormalFormIdempotent | edgar_sec/domain/filing_catalog/filters.py:552-567 | a canonical selection is its own and only normal form, so normalising twice is normalising once |
| DateSelection.NormalFormPreservesMatches | edgar_sec/domain/filing_catalog/filters.py:441-453 | for every real date the normalised selection matches as the clauses do, exactly unless all-date coverage was dropped beside recurring clauses that miss the date |
| DateSelection.NormalFormOnUnreadableDate | edgar_sec/domain/filing_catalog/filters.py:741-750 | a missing or unreadable date is treated alike before and after, exactly unless dropping all-date coverage empties the selection |
| DateSelection.RunsBuildableIffNoEdge | edgar_sec/domain/filing_catalog/filters.py:95-119 | the canonical runs of a granularity pass the constructor's year check exactly when no clause pair meets the edge condition at the first or last valid year |
| DateNormalisation.MergeAbsolute | edgar_sec/domain/filing_catalog/filters.py:441-453 | the absolute part keeps exactly the covered days, and nothing when every day is covered |
| DateNormalisation.RunsOf | edgar_sec/domain/filing_catalog/filters.py:493-549 | one granularity's merge: the canonical runs of years selecting one constant value set |
| DateNormalisation.MergeRecurring | edgar_sec/domain/filing_catalog/filters.py:493-549 | all granularities: canonical runs with the triples of the input, or the constructor's error exactly on a year edge |
| DateNormalisation.NormalizeDateSelection | edgar_sec/domain/filing_catalog/filters.py:552-567 | raises exactly on a year edge; otherwise returns the normal form of the clauses |
| DateGrammar.ParseDateSelection | edgar_sec/domain/filing_catalog/filters.py:570-593 | returns a normal form of the clauses the text denotes, and raises exactly when a term is malformed or the clauses have a year edge |
| DateGrammar.FormatDateSelection | edgar_sec/domain/filing_catalog/filters.py:663-685 | the loop prints the joined terms of the selection |
| DateLanguage.AtomAccepted | edgar_sec/domain/filing_catalog/filters.py:249-295 | a year, quarter, month or day in the language's spelling is read as its first and last day |
| DateLanguage.AtomSpelled | edgar_sec/domain/filing_catalog/filters.py:242-304 | whatever is read as an atom is spelled so: a four-digit year in range, `Qn`, a month of 1 to 12, a day of the calendar |
| DateLanguage.AtomDays | edgar_sec/domain/filing_catalog/filters.py:249-295 | the days from first to last are exactly those of the atom's year, quarter, month or date |
| DateLanguage.AbsoluteAccepted | edgar_sec/domain/filing_catalog/filters.py:307-322 | a spelled atom or ordered range matches exactly its dates: no earlier than every day of the left atom, no later than every day of the right one |
| DateLanguage.AbsoluteIsSpelled | edgar_sec/domain/filing_catalog/filters.py:307-322 | whatever is accepted as an absolute term is an atom or an ordered range with at least one side |
| DateTexts.RecurringAccepted | edgar_sec/domain/filing_catalog/filters.py:325-380 | `@Qn` or `@Mm`, alone, with empty brackets or with a year range open at one side at most, is read as that period of those years |
| DateTexts.RecurringIsSpelled | edgar_sec/domain/filing_catalog/filters.py:325-380 | whatever is accepted after the at sign is spelled so |
| DateTexts.TermIff | edgar_sec/domain/filing_catalog/filters.py:570-592 | a term is accepted exactly when it is spelled in one of these ways |
| DateTexts.TermAccepted | edgar_sec/domain/filing_catalog/filters.py:570-592 | an accepted term matches exactly the dates its spelling means |
| DateTexts.TextRefusedIff | edgar_sec/domain/filing_catalog/filters.py:570-593 | a text denotes clauses exactly when every comma-separated term spells something |
| DateTexts.TextMeans | edgar_sec/domain/filing_catalog/filters.py:570-593 | an accepted text selects exactly the dates one of its terms means, unless absolute terms cover every day beside recurring ones; the empty text selects all |
| DateTexts.YearTextMeans | edgar_sec/domain/filing_catalog/filters.py:270-273 | a year's four digits select exactly that year |
| DateTexts.PrintedPeriod | edgar_sec/domain/filing_catalog/filters.py:663-685 | a quarter is printed with its digit, a month with exactly two digits |
| DateRoundTrip.ParsePrintedSelection | edgar_sec/domain/filing_catalog/filters.py:325-357 | a printed selection denotes, term by term, one clause per value, the year span on the last value only |
| DateTheorems.ParseReturns | edgar_sec/domain/filing_catalog/filters.py:570-593 | the parser returns a given selection exactly when the selection is the normal form of what the text denotes |
| DateTheorems.RoundTripExact | edgar_sec/domain/filing_catalog/filters.py:663-685 | printing a canonical selection and parsing it gives it back exactly when its absolute ends lie in grammar years and every value printed without its span is selected in every year anyway |
| DateTheorems.RoundTripSingleValues | edgar_sec/domain/filing_catalog/filters.py:663-685 | the documented case: exact when every year-bounded clause has one value |
| DateReparse.PrintedTextRefusedIff | edgar_sec/domain/filing_catalog/filters.py:663-685 | the text of a canonical selection is refused exactly when an absolute end lies outside the grammar years, or some value is printed bare beside a clause that stops at the first or last valid year in a value never printed bare |
| DateReparse.ReparsedMatchesExactly | edgar_sec/domain/filing_catalog/filters.py:667-680 | whatever the text parses to matches exactly the dates the selection matches and those whose period was printed bare |
| DateReparse.ReparsedMatchesMore | edgar_sec/domain/filing_catalog/filters.py:667-680 | for every canonical selection: when its text is refused, and that what it parses to otherwise matches at least the same dates |
| DateReparse.PrintAndParse | edgar_sec/domain/filing_catalog/filters.py:570-685 | printing then parsing: when it raises, when it returns the selection, and which dates the result matches |
| DateReparse.FirstYearTextRefused | edgar_sec/domain/filing_catalog/filters.py:667-680 | both quarters of 1900..2015 are canonical and their text is refused |
| DateReparse.PrinterWidens | edgar_sec/domain/filing_catalog/filters.py:667-680 | both quarters of 2011..2015 reparse as the first quarter of every year and the second of those five |
| DateReparse.EarlyDayTextRefused | edgar_sec/domain/filing_catalog/filters.py:307-322 | an open interval from 1850 is canonical, is printed, and its text is refused |
| DateReparse.LastDayIsNotOpenEnd | edgar_sec/domain/filing_catalog/filters.py:395-402 | `..9999-12-31` and `..` cover the same representable days; the first is its own normal form, the second normalises to nothing |
| DateTheorems.ParseQuarterAtom | edgar_sec/domain/filing_catalog/filters.py:249-295 | `YYYYQn` parses to the interval of that quarter |
| DateTheorems.QuarterAtomIsRecurringQuarter | edgar_sec/domain/filing_catalog/filters.py:249-295 | that interval holds exactly the dates of the recurring quarter bounded to the year |
| DateTheorems.ParseMonthAtom | edgar_sec/domain/filing_catalog/filters.py:249-295 | `YYYY-MM` parses to the interval of that month |
| DateTheorems.MonthAtomIsRecurringMonth | edgar_sec/domain/filing_catalog/filters.py:249-295 | that interval holds exactly the dates of the recurring month bounded to the year |
| DateTheorems.FourQuartersAreTheYear | edgar_sec/domain/filing_catalog/filters.py:416-453 | the four quarter clauses of a year, leap or not, have that year's one clause as their only normal form |
| DateTheorems.AllDateCoverageLosesADate | edgar_sec/domain/filing_catalog/filters.py:449-453 | an all-date clause beside `@Q1` matches a July date that the normal form does not |
| DateTheorems.FirstYearIsAnEdge | edgar_sec/domain/filing_catalog/filters.py:109-111 | `@Q1[1900..],@Q2` is a year edge: normalising it raises |
| DateTheorems.GranularitiesAreNotUnified | edgar_sec/domain/filing_catalog/filters.py:493-549 | `@Q1` and the first three months match the same dates and stay different canonical values |
| DateTheorems.CalendarDaysDecide | edgar_sec/domain/filing_catalog/filters.py:395-414 | clause lists equal on all representable days are equal on the whole line exactly when they agree on being open at either end |
| DateJson.SelectionFromJson | edgar_sec/domain/filing_catalog/filters.py:601-641 | rereads a payload into the normal form of its clauses, or raises exactly on a malformed entry or a year edge |
| DateJson.AbsoluteEntry | edgar_sec/domain/filing_catalog/filters.py:608-616 | an absolute entry is read from `kind`, `start_date` and `end_date`; a missing or null date is an open end; an end before the start is refused |
| DateJson.RecurringEntry | edgar_sec/domain/filing_catalog/filters.py:617-635 | a recurring entry is read from its five fields, values sorted and once each, missing or null years open |
| DateJson.WrittenDay | edgar_sec/domain/filing_catalog/filters.py:66-80 | a date is written as four digits, two and two, with hyphens between |
| DateJson.JsonRoundTrip | edgar_sec/domain/filing_catalog/filters.py:596-641 | writing any canonical selection as JSON and reading it returns the same value |
| Batch.SequentialOutcomes | edgar_sec/apps/client/batch.py:68-77 | one outcome per unit, in order: the unit with the value exactly when its work gives that value, with the error exactly when its work raises it |
| Batch.PoolOutcomes | edgar_sec/apps/client/batch.py:80-128 | for every schedule of completions, task failures and pool deaths: each position answered exactly once; submitted in order, at most once, never more than `width` in flight; an outcome reports what the unit's work gives, value or error, unless a dying pool took the unit, and no value is reported that the work does not give; at most `width` are taken per pool; terminates |
| Batch.EachPositionOnce | edgar_sec/apps/client/batch.py:80-128 | the answered positions hold every position exactly once |
| Batch.QuietPoolEqualsSequential | edgar_sec/apps/client/batch.py:50-77 | with no pool death the outcomes are a permutation of the sequential ones |
| Batch.NoUnitLost | edgar_sec/apps/client/batch.py:1-22 | under every schedule the units answered are the units given, and none is given another unit's value |
| Batch.StreamFilingOutcomes | edgar_sec/apps/client/batch.py:50-65 | one outcome per unit, any value in it being that unit's own; the sequential outcomes when one worker or one unit |
| FacadeCache.FacadeCache.GetOrBuild | edgar_sec/apps/client/facade.py:78-99 | run sequentially: a hit returns the cached object and records the access, a miss inserts and evicts, a failed build changes no entry; the keys stay the most recent `capacity` distinct keys by last access |
| FacadeCache.FacadeCache.Clear | edgar_sec/apps/client/facade.py:101-105 | empties the cache and its history |
| FacadeCache.HitKeepsLru | edgar_sec/apps/client/facade.py:80-84 | moving a hit to the end keeps the keys the most recently used, in order |
| FacadeCache.MissKeepsLru | edgar_sec/apps/client/facade.py:92-97 | inserting and evicting the oldest keeps the keys the most recently used, in order |
| FacadeCache.LruUnique | edgar_sec/apps/client/facade.py:59-105 | the access history determines the cached keys and their order |
| FacadeCache.LruBounded | edgar_sec/apps/client/facade.py:92-97 | at most `capacity` keys, no key twice |
| FacadeThreads.ReachableIsBounded | edgar_sec/apps/client/facade.py:78-105 | in every interleaving of any number of threads the cache holds at most `capacity` distinct keys between steps |
| FacadeThreads.NothingLeavesThenBuiltOnce | edgar_sec/apps/client/facade.py:55-57 | if the keys in use fit the capacity and nobody clears: at most one builder per key in progress, at most one ever succeeds, and every returned call got that same object, failed builds included |
| FacadeThreads.EvictionClash | edgar_sec/apps/client/facade.py:55-57 | more keys than capacity: a reachable state has two threads building one key, an old waiter and a newcomer on different locks |
| FacadeThreads.ClearClash | edgar_sec/apps/client/facade.py:101-105 | a clear during a build lets a second build of the key begin |
| FacadeThreads.BuiltOnceIffNothingLeaves | edgar_sec/apps/client/facade.py:55-57 | one builder at a time, one success ever, and one facade for every caller of a key: each holds in every interleaving exactly when the keys fit and nobody clears |
| FacadeRecency.InOrderIff | edgar_sec/apps/client/facade.py:78-105 | the cached keys are the most recently used, in order, in every interleaving exactly when the keys fit and nobody clears, or the capacity or the number of keys is one |
| FacadeRecency.StepInOrder | edgar_sec/apps/client/facade.py:78-99 | every step keeps the order, except a publication over an entry that is not the latest |
| FacadeRecency.OverwriteBreaksOrder | edgar_sec/apps/client/facade.py:93-95 | a facade published over an older entry keeps that entry's place, and the order is lost |
| EquitySearch.FirstFitIsFirst | edgar_sec/apps/client/equity_rollforward.py:153-164 | the unpruned search returns the first reconciling decisions in include-first order, if any decisions reconcile |
| EquitySearch.FirstFitComplete | edgar_sec/apps/client/equity_rollforward.py:153-164 | it succeeds exactly when some subset sums to within 1 of the target |
| EquitySearch.SuffixSums | edgar_sec/apps/client/equity_rollforward.py:146-151 | the backward loop fills every suffix's positive and negative sum |
| EquitySearch.PruningIsSafe | edgar_sec/apps/client/equity_rollforward.py:158-159 | outside the suffix band nothing reconciles, so pruning loses nothing |
| EquitySearch.Search.Dfs | edgar_sec/apps/client/equity_rollforward.py:153-164 | the pruned search appends exactly the names of the unpruned search's first decisions to the shared list, or restores it and fails |
| EquitySearch.SortKeepsSubsets | edgar_sec/apps/client/equity_rollforward.py:144-145 | whether a subset reconciles does not depend on the sort |
| EquitySearch.LargestFirst | edgar_sec/apps/client/equity_rollforward.py:144 | in the search order magnitudes do not grow, and equal ones are in name order |
| EquitySearch.LeaderIsFirst | edgar_sec/apps/client/equity_rollforward.py:144 | a member larger than every other, or as large and earlier by name, is tried first |
| EquitySearch.AntichainFallback | edgar_sec/apps/client/equity_rollforward.py:134-168 | returns the first reconciling members, largest magnitude first, exactly when a subset of the members reconciles, otherwise all members as given; a leading member that reconciles alone is the whole answer |
| Sorting.StringLeMeans | edgar_sec/apps/client/equity_rollforward.py:144 | names are compared as prefixes or at their first difference |
| Segmentation.Segmenter.FromPos | edgar_sec/apps/client/catalog.py:327-343 | the memoised search returns what the search without a memo returns, and keeps every memo entry correct |
| Segmentation.PieceMeans | edgar_sec/apps/client/catalog.py:317-323 | a piece is a lexicon word, an attested token of four characters, or either with an `s` behind it |
| Segmentation.LongestIsGreediest | edgar_sec/apps/client/catalog.py:327-345 | the search finds the split with the longest pieces, position by position, and fails exactly when there is none |
| Segmentation.GreediestUnique | edgar_sec/apps/client/catalog.py:312-315 | there is one greediest split |
| Segmentation.SegmentWord | edgar_sec/apps/client/catalog.py:305-350 | returns the greediest split, of accepted pieces spelling the word, if it has two pieces and a content piece; otherwise nothing |
| Segmentation.WholeWordsOnlyAddThemselves | edgar_sec/apps/client/catalog.py:335-345 | admitting whole words changes the search only for accepted words |
| Segmentation.StaysWholeIff | edgar_sec/apps/client/catalog.py:345-350 | exactly when a word stays whole |
| Segmentation.AdmissibleSplitMissed | edgar_sec/apps/client/catalog.py:312-315 | a word with an admissible split stays whole because its greediest split is all stop words |
| CalcDistance.Distance | edgar_sec/apps/client/financials_core.py:50-68 | the length of the shortest walk of at least one arc, cycles included; nothing exactly when there is no walk; terminates on every finite graph |
| CalcDistance.ExpandLayer | edgar_sec/apps/client/financials_core.py:56-67 | one layer: the target met at the next distance, or every node of the frontier expanded and the next frontier exactly what was new |
| CalcDistance.LayerIsWalks | edgar_sec/apps/client/financials_core.py:56-67 | a layer holds exactly the ends of the walks of its length |
| PresentationGraph.ChildrenByParent | edgar_sec/apps/client/location.py:203-216 | every parent's arcs, none lost or invented, by order and then name |
| PresentationGraph.SiblingsMean | edgar_sec/apps/client/location.py:209-215 | of two siblings the earlier has the smaller order, none counting as zero, or the same and the earlier name |
| PresentationGraph.GroupedArcs | edgar_sec/apps/client/location.py:203-216 | the grouped lists have exactly the filed arcs |
| PresentationGraph.Walk | edgar_sec/apps/client/location.py:185-200 | extends the path by the first simple path to the target in sibling order that avoids it, or reports that there is none |
| PresentationGraph.ReachableMeansSimple | edgar_sec/apps/client/location.py:185-200 | where any walk leads, a simple path leads, so refusing to revisit loses nothing |
| PresentationGraph.FirstSimpleUnique | edgar_sec/apps/client/location.py:185-200 | there is at most one first path |
| PresentationGraph.PathTo | edgar_sec/apps/client/location.py:176-182 | a path exactly when some root reaches the concept: from the first such root, along filed arcs, without repeats, first in sibling order |
| PresentationGraph.Subtree | edgar_sec/apps/client/presentation.py:263-270 | the worklist visits exactly the nodes reachable from the axis |
| PresentationGraph.DeclaredBreakdownMembers | edgar_sec/apps/client/presentation.py:236-274 | role by role, the category and the filed members reachable from the axis, roles without any left out |
| PresentationGraph.DeclaredMeans | edgar_sec/apps/client/presentation.py:250-274 | a category and member set are declared exactly by a role that shows axis and concept and reaches those filed members and no other |
| EquivalentScan.FactsByHead | edgar_sec/apps/client/equivalence_scan.py:12-23 | every head's group holds its facts in the fact set's order |
| EquivalentScan.HeadFactsSuffice | edgar_sec/apps/client/xbrl.py:744-764 | a head's own facts fill every pool as all facts do |
| EquivalentScan.DefaultYearSet | edgar_sec/apps/client/equivalence_scan.py:26-44 | the years of every fact that would create a bucket, whatever its concept |
| EquivalentScan.PassYears | edgar_sec/apps/client/xbrl.py:749-757 | the single pass creates buckets for exactly those years, whatever the atom |
| EquivalentScan.Scanner.CachedDefaultYears | edgar_sec/apps/client/equivalence_scan.py:47-57 | a cached year set is the one a fresh scan gives |
| EquivalentScan.Scanner.EquivalentForAtom | edgar_sec/apps/client/xbrl.py:727-794 | from the index and the cache, whatever earlier calls left there, the result of one pass over all facts: same fact, year, class and status |
| EquivalentScan.FullScanFunctional | edgar_sec/apps/client/xbrl.py:727-794 | the reference pass determines its result |
| EquivalentScan.ServedFactQualifies | edgar_sec/apps/client/xbrl.py:734-738 | the served fact is a candidate of the year, an instant or of the named class: classes never mix |
| EquivalentScan.ServedFactBeats | edgar_sec/apps/client/xbrl.py:772-780 | no asked-for class earlier on the ladder has a candidate that year, and no pooled candidate is larger |
| EquivalentScan.CandidateMeans | edgar_sec/apps/client/xbrl.py:739-764 | a candidate is a plain number in a monetary unit whose record has the head and every modifier that is no valence, pooled by its span's end year and class or by its date's year |
| EquivalentScan.OrderKept | edgar_sec/apps/client/equivalence_scan.py:12-23 | groups and pools keep the order of the facts |
| EquivalentScan.LadderOrder | edgar_sec/apps/client/xbrl.py:100 | annual, three quarters to date, two, then a quarter |
| EquivalentScan.NothingServed | edgar_sec/apps/client/xbrl.py:765-779 | nothing is served only when no year is known or the year has no candidate |
| MetricKernel.Kernel.BestRanked | edgar_sec/apps/client/kernel.py:311-348 | per concept and year the first fact of highest rank, keys in order of first appearance, cached without drift |
| MetricKernel.Kernel.BestRankedValues | edgar_sec/apps/client/kernel.py:350-373 | one concept's years, each with the value of its best-ranked fact |
| MetricKernel.BestRankedUnique | edgar_sec/apps/client/kernel.py:311-348 | the facts determine the map and its order |
| MetricMeaning.BestRankedMeans | edgar_sec/apps/client/kernel.py:323-346 | the kernel's value is that of an admitted fact; no other has a longer span, or as long and finer decimals, and none filed earlier ranks as high |
| MetricMeaning.FirstSeenFirst | edgar_sec/apps/client/kernel.py:326-346 | the map's keys stand in the order of their first facts |
| MetricMeaning.BestRankedHas | edgar_sec/apps/client/kernel.py:323-346 | a concept and year have a value exactly when an admitted fact carries them |
| MetricMeaning.ServedIff | edgar_sec/apps/client/financials_core.py:328-343 | a year is served exactly when a concept recorded at the coordinate has a value for it |
| MetricMeaning.ServedYearMeans | edgar_sec/apps/client/financials_core.py:348-397 | a served year has a pick no other candidate precedes, by bareness, magnitude and signed value or by magnitude alone, and serves it, unless a revenue pick gives way to the nearest standard concept above it |
| MetricSeries.ComputeSeriesFull | edgar_sec/apps/client/financials_core.py:310-361 | every year with a candidate serves its first best candidate, or the nearest standard total above it when revenue picks yield |
| MetricSeries.NearestStandard | edgar_sec/apps/client/financials_core.py:370-397 | the nearest calculation ancestor in the pool, then the largest, then the first by name |
| MetricSeries.ServeStandardAncestors | edgar_sec/apps/client/financials_core.py:362-398 | each year's slots follow the override together |
| MetricSeries.SeriesAndWinnersAgree | edgar_sec/apps/client/financials_core.py:310-360 | series and winners have the same years, and each value is the best-ranked value of the eligible concept named, also after an override |
| MetricSeries.SeriesMatchesSlice | edgar_sec/apps/client/kernel.py:350-373 | the kernel's slice for the concept named holds the year's value |
| MetricSeries.SeriesPairUnique | edgar_sec/apps/client/financials_core.py:268-308 | the facts determine the pair, so a cached and a fresh one are equal |
| MetricSeries.CapexSeriesAtClass | edgar_sec/apps/client/financials_capex.py:25-55 | the governing coordinate's magnitude: payments, then classified purchases, then purchase acts |
| MetricSeries.CapexWinnersAtClass | edgar_sec/apps/client/financials_capex.py:86-116 | the governing coordinate's winning concept |
| MetricSeries.CapexSeriesAndWinnersAgree | edgar_sec/apps/client/financials_capex.py:86-91 | the two surfaces, computed apart, have the same years, and each magnitude is that of the best-ranked value of the concept named |
| PerShareMerge.Merge | edgar_sec/apps/client/financials_core.py:628-649 | a key is served unless two of its candidates clashed while nothing longer had arrived, and then serves the first candidate of its longest span |
| PerShareMerge.ClashIffLongestOrEarly | edgar_sec/apps/client/financials_core.py:632-636 | a key disappears exactly when its longest span disagrees or a shorter span clashed before a longer candidate |
| PerShareMerge.ServedValueIsLongest | edgar_sec/apps/client/financials_core.py:632-636 | a served value is that of every candidate of the longest span |
| PerShareMerge.MeetsIntentIff | edgar_sec/apps/client/financials_core.py:632-636 | "longest span wins" holds for a key exactly when no shorter clash precedes a longer candidate, or the longest span disagrees anyway |
| PerShareMerge.ShortClashKillsLongSpan | edgar_sec/apps/client/financials_core.py:637-648 | two disagreeing short spans remove the key from a longer one that arrives after them |
| PerShareMerge.OrderDoesNotMatter | edgar_sec/apps/client/financials_core.py:628-649 | any two arrival orders without an early clash serve the same keys and values |
| PerShareMerge.LongestFirstIsExact | edgar_sec/apps/client/financials_core.py:628-649 | longest first, a key disappears exactly when its longest span disagrees |
| PerShareMerge.ProvenanceFollowsArrival | edgar_sec/apps/client/financials_core.py:644-645 | the provenance can depend on the order even longest first |
| Identity.CikRoundTrip | edgar_sec/domain/identity.py:26-35 | the padded form has ten digits, and both forms are read back to the CIK |
| Identity.DigitsNameCik | edgar_sec/domain/identity.py:26-32 | any digit string names the CIK of its value, or is out of range |
| Identity.FromAnyByDigits | edgar_sec/domain/identity.py:61-75 | a text is accepted exactly when 18 digits remain, and those digits alone give the identity |
| Identity.CikRange | edgar_sec/domain/identity.py:22-32 | a number is a CIK exactly from 0 to 9,999,999,999 |
| Identity.BothSpellingsAreOne | edgar_sec/domain/identity.py:61-80 | both spellings are one identity, normalised to the compact one |
| Identity.NewlineAccepted | edgar_sec/domain/identity.py:71-75 | 18 digits, a newline and a hyphen are accepted as the accession of the digits |
| Identity.OneIdentityIffSameDigits | edgar_sec/domain/identity.py:61-80 | accepted texts are one identity exactly when their digits agree |
| ArchiveUrl.HyphenatedNormalizesBack | edgar_sec/domain/sec_urls.py:119-140 | the hyphenated form exists exactly for normalisable accessions, normalises back to the same digits, and for 18 digits is the identity's spelling |
| ArchiveUrl.AccessionForms | edgar_sec/domain/sec_urls.py:119-140 | 10 to 18 digits normalise, and are hyphenated after ten, and after twelve of 18 |
| ArchiveUrl.MatchIff | edgar_sec/domain/sec_urls.py:111-114 | the matcher finds exactly what the path pattern means |
| ArchiveUrl.PartsIff | edgar_sec/domain/sec_urls.py:174-187 | a path has parts exactly when it fits the pattern with a document that is not only slashes, and the parts spell the path |
| ArchiveUrl.PrinterDrops | edgar_sec/domain/sec_urls.py:61-76 | any spelling of the CIK number with any spelling of the accession digits prints the one canonical URL |
| ArchiveUrl.UsualSpellings | edgar_sec/domain/sec_urls.py:61-76 | the padded and bare CIK, and the compact and hyphenated accession, are such spellings |
| ArchiveUrl.PrinterIdentifies | edgar_sec/domain/sec_urls.py:61-76 | under any base two calls print one URL exactly when CIK numbers, accession digits and documents agree |
| ArchiveUrl.ParsePrintedIff | edgar_sec/domain/sec_urls.py:190-204 | parsing a printed URL returns CIK, accession and path exactly when the path is on one line, not only slashes and does not end in space |
| ArchiveUrl.TrailingSpaceNotReadBack | edgar_sec/domain/sec_urls.py:190-204 | a document path ending in a space is printed and not read back |
| ArchiveUrl.PrintParsedIff | edgar_sec/domain/sec_urls.py:190-204 | printing parsed parts gives the URL back exactly when its CIK is unpadded |
| ArchiveUrl.ValidatePrintedIff | edgar_sec/domain/sec_urls.py:207-261 | the validator accepts a printed URL for its accession and CIK, in any spelling, exactly when the document path is safe, and returns what the parser returns |
| ArchiveUrl.ClimbingPathRefused | edgar_sec/domain/sec_urls.py:235-242 | a document path with a `..` segment is printed and read back, and the validator refuses it |
| ArchiveUrl.AcceptedIsScoped | edgar_sec/domain/sec_urls.py:207-261 | whatever the validator accepts lies in the expected accession and CIK, under the policy's origin, with a safe document path |
| ArchiveAcceptance.AcceptedIff | edgar_sec/domain/sec_urls.py:207-261 | the validator returns the parts exactly when the URL has no character at or below the space, DEL, `?` or `#`; is a scheme and host of the policy, without user information or port, before its path; the path has no `%`, backslash, empty or dot segment; and it names the parts with the expected accession and CIK |
| ArchiveAcceptance.AllowedIff | edgar_sec/domain/sec_urls.py:224-236 | the origin is allowed exactly when the URL is such a scheme, host, perhaps a bare colon, and path |
| ArchiveAcceptance.SafePathIff | edgar_sec/domain/sec_urls.py:237-244 | a path is safe exactly without `%`, backslash, two slashes in a row, and dot segments |
| ArchiveAcceptance.PercentRefused | edgar_sec/domain/sec_urls.py:240 | a percent sign in the path is refused |
| ArchiveAcceptance.PolicyIff | edgar_sec/domain/sec_urls.py:158-168 | a policy is built exactly from schemes and hosts that are not empty and have the right characters |
| ArchiveUrl.ParserAndValidatorAgree | edgar_sec/domain/sec_urls.py:190-261 | on the SEC archive base, parser and validator return the same record |
| ArchiveUrl.PolicyIsFolded | edgar_sec/domain/sec_urls.py:158-168 | a policy is stored folded, and building it again changes nothing |

## Left out

- Error messages: every exception is `Failure`, except the error text of a batch outcome, which is kept as recorded.
- Unicode digits, Unicode white space and case folding beyond ASCII.
- `date.fromisoformat` spellings other than `YYYY-MM-DD`: the compact and week forms of newer Python versions.
- `resolve_date_selection`, `normalize_suffixes`, `DateRange` and `DateInterval`: argument adapters that build the clauses modelled here.
- Floating-point rounding: values and closings are exact reals, so the tolerance of 1 is exact.
- Batch.PoolOutcomes: futures are named by their unit position, and the outcome stream is the sequence of all outcomes yielded; a consumer that stops early is not modelled.
- Worker processes themselves: the scheduler chooses which futures are done, and when a pool breaks.
- FacadeThreads.BuiltOnceIffNothingLeaves: a builder that calls back into the cache, and fairness or deadlock of the locks, are not modelled.
- FacadeCache.FacadeCache.GetOrBuild: a builder is given by its result, so the sequential cache does not see how long it runs.
- EquitySearch.AntichainFallback: the subsumption frontier tried before it is not part of this model, and a member has a closing value, as the caller ensures whenever there is a target.
- CalcDistance.Distance: the arc list grouped into children is given; the grouping loop is the same as in `PresentationGraph.FiledChildren`.
- MetricKernel.Kernel.BestRanked: `period_rank` and the span class of a fact are parameters.
- EquivalentScan.Scanner.EquivalentForAtom: `duration_length_class` is a parameter, the requested year is given as text, and the tokenizer that produces the atom is not modelled.
- MetricSeries.ComputeSeriesFull: the dictionaries are values that the loops reassign, with the insertion order of the best-ranked map kept beside it; aliasing between them is not modelled.
- MetricSeries.CapexSeriesAtClass: the fallback ladder over length classes and the scalar accessors above it.
- PerShareMerge.Merge: how the candidates are collected, derived and rounded.
- PresentationGraph.PathTo: titles and categories of the placements.
- PresentationGraph.Walk: Python's recursion limit.
- ArchiveUrl.ValidatePrintedIff: bracketed hosts are always refused here, and network locations are ASCII.
- Identity.DigitsNameCik: Python's limit on the length of integer text.
- The other URL builders of `sec_urls.py`, reference resolution and surface classification.
- SQL, Parquet, HTTP, file and rendering code.
