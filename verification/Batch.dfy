/** The batch streaming contract: one outcome per filing, over a pool whose
    workers may die at submit or while a filing runs
    (edgar_sec/apps/client/batch.py). */
module Batch {

  /** What running one filing's work gives: a value, or a raised exception under
      its recorded name. */
  datatype WorkResult<T> = Value(value: T) | Raised(error: string)

  /** `error` is `None` in Python exactly for `Served`. */
  datatype Outcome<U, T> = Served(unit: U, value: T) | Failed(unit: U, error: string)

  /** The outcome reports what the work gives for the filing: its value as served, its
      exception as failed. */
  ghost predicate Reports<U, T>(u: U, work: U -> WorkResult<T>, outcome: Outcome<U, T>) {
    && outcome.unit == u
    && (outcome.Served? <==> work(u).Value?) && (outcome.Failed? <==> work(u).Raised?)
    && (outcome.Served? ==> work(u) == Value(outcome.value))
    && (outcome.Failed? ==> work(u) == Raised(outcome.error))
  }

  /** One report per filing, in order. */
  ghost predicate ReportsAll<U, T>(units: seq<U>, work: U -> WorkResult<T>, outcomes: seq<Outcome<U, T>>) {
    |outcomes| == |units| && forall i :: 0 <= i < |units| ==> Reports(units[i], work, outcomes[i])
  }

  /** `_sequential_outcomes`. */
  method SequentialOutcomes<U, T>(units: seq<U>, work: U -> WorkResult<T>) returns (outcomes: seq<Outcome<U, T>>)
    ensures ReportsAll(units, work, outcomes)
    ensures forall i, v :: 0 <= i < |units| ==> (outcomes[i] == Served(units[i], v) <==> work(units[i]) == Value(v))
    ensures forall i, e :: 0 <= i < |units| ==> (outcomes[i] == Failed(units[i], e) <==> work(units[i]) == Raised(e))
  {
    outcomes := [];
    for i := 0 to |units|
      invariant ReportsAll(units[..i], work, outcomes)
    {
      match work(units[i]) {
        case Value(v) => outcomes := outcomes + [Served(units[i], v)];
        case Raised(e) => outcomes := outcomes + [Failed(units[i], e)];
      }
    }
    assert units[..|units|] == units;
  }

  // -------------------------------------------------------------- run accounting

  /** The ghost account of a pool run: the unit position each outcome answers,
      whether a dying pool took that unit, the positions handed to a pool in order,
      the pools that died after accepting a filing, whether one died before, and the
      most filings ever in flight. */
  datatype Account = Account(
    positions: seq<nat>, taken: seq<bool>, submissions: seq<nat>, broken: nat, startupDeath: bool, peak: nat)

  function Firsts(n: nat): seq<nat> {
    seq(n, i requires 0 <= i < n => i)
  }

  function TakenCount(taken: seq<bool>): nat {
    if taken == [] then 0
    else TakenCount(taken[..|taken| - 1]) + if taken[|taken| - 1] then 1 else 0
  }

  /** Each outcome names its position's unit, and is the unit's own outcome unless
      a dying pool took the unit, in which case it is an error. */
  ghost predicate Accounted<U, T>(units: seq<U>, work: U -> WorkResult<T>, outcomes: seq<Outcome<U, T>>, acc: Account) {
    && |outcomes| == |acc.positions| == |acc.taken|
    && (forall k :: 0 <= k < |outcomes| ==> acc.positions[k] < |units|)
    && (forall k :: 0 <= k < |outcomes| ==> AnswersUnit(units[acc.positions[k]], work, outcomes[k], acc.taken[k]))
  }

  ghost predicate AnswersUnit<U, T>(u: U, work: U -> WorkResult<T>, outcome: Outcome<U, T>, taken: bool) {
    outcome.unit == u && if taken then outcome.Failed? else Reports(u, work, outcome)
  }

  /** Answered and in-flight positions together are the submitted ones, each once. */
  ghost predicate Ledger(acc: Account, inFlight: seq<nat>, next: nat, total: nat, width: nat) {
    && next <= total
    && acc.submissions == Firsts(next)
    && multiset(acc.positions) + multiset(inFlight) == multiset(Firsts(next))
    && |inFlight| <= width
    && acc.peak <= width
    && (forall k :: 0 <= k < |inFlight| ==> inFlight[k] < next)
  }

  ghost function Answer(acc: Account, position: nat, taken: bool): Account {
    acc.(positions := acc.positions + [position], taken := acc.taken + [taken])
  }

  lemma AnswerAccounted<U, T>(units: seq<U>, work: U -> WorkResult<T>, outcomes: seq<Outcome<U, T>>, acc: Account,
                              position: nat, outcome: Outcome<U, T>, taken: bool)
    requires Accounted(units, work, outcomes, acc) && position < |units|
    requires AnswersUnit(units[position], work, outcome, taken)
    ensures Accounted(units, work, outcomes + [outcome], Answer(acc, position, taken))
    ensures TakenCount(Answer(acc, position, taken).taken) == TakenCount(acc.taken) + if taken then 1 else 0
  {
    var t := acc.taken + [taken];
    assert t[..|t| - 1] == acc.taken;
  }

  lemma RemoveAt<A>(s: seq<A>, k: nat)
    requires k < |s|
    ensures multiset(s) == multiset(s[..k] + s[k + 1..]) + multiset{s[k]}
  {
    assert s == s[..k] + [s[k]] + s[k + 1..];
  }

  lemma CancelOne(a: multiset<nat>, b: multiset<nat>, x: nat)
    requires a + multiset{x} <= b + multiset{x}
    ensures a <= b
  {
    forall y: nat ensures a[y] <= b[y] {
      assert (a + multiset{x})[y] <= (b + multiset{x})[y];
    }
  }

  lemma FirstsGrow(n: nat)
    ensures Firsts(n + 1) == Firsts(n) + [n]
  {
  }

  // ----------------------------------------------------------- the pool driver

  /** The submit loop: fills the window, or stops when the pool refuses a filing. */
  method SubmitPhase(total: nat, width: nat, inFlight0: seq<nat>, next0: nat, submitted0: nat, ghost acc0: Account)
    returns (inFlight: seq<nat>, next: nat, submitted: nat, refused: bool, ghost acc: Account)
    requires Ledger(acc0, inFlight0, next0, total, width)
    ensures Ledger(acc, inFlight, next, total, width)
    ensures acc == acc0.(submissions := acc.submissions, peak := acc.peak)
    ensures next0 <= next && submitted == submitted0 + (next - next0) && |inFlight| == |inFlight0| + (next - next0)
    ensures !refused ==> next == total || |inFlight| == width
    ensures inFlight == [] ==> next == next0
  {
    inFlight, next, submitted, refused, acc := inFlight0, next0, submitted0, false, acc0;
    while next < total && |inFlight| < width && !refused
      invariant Ledger(acc, inFlight, next, total, width)
      invariant acc == acc0.(submissions := acc.submissions, peak := acc.peak)
      invariant next0 <= next && submitted == submitted0 + (next - next0) && |inFlight| == |inFlight0| + (next - next0)
      decreases total - next, !refused
    {
      var poolBroken: bool := *;
      if poolBroken {
        refused := true;
      } else {
        FirstsGrow(next);
        ghost var grown := inFlight + [next];
        assert multiset(grown) == multiset(inFlight) + multiset{next};
        acc := acc.(submissions := acc.submissions + [next], peak := if |grown| > acc.peak then |grown| else acc.peak);
        inFlight := inFlight + [next];
        next := next + 1;
        submitted := submitted + 1;
      }
    }
  }

  /** The futures `wait` reports done: any nonempty selection, in any order. */
  predicate DoneSelection(done: seq<nat>, inFlight: seq<nat>) {
    done != [] && multiset(done) <= multiset(inFlight)
  }

  /** Popping the `k`-th in-flight filing and answering it keeps the ledger. */
  lemma LedgerAnswer(acc: Account, inFlight: seq<nat>, k: nat, taken: bool, next: nat, total: nat, width: nat)
    requires Ledger(acc, inFlight, next, total, width) && k < |inFlight|
    ensures Ledger(Answer(acc, inFlight[k], taken), inFlight[..k] + inFlight[k + 1..], next, total, width)
  {
    RemoveAt(inFlight, k);
  }

  /** One turn of the result loop: pop a done future and report what it holds. */
  method CollectOne<U, T>(units: seq<U>, work: U -> WorkResult<T>, index: nat, inFlight0: seq<nat>, ghost next: nat,
                          ghost width: nat,
                          outcomes0: seq<Outcome<U, T>>, ghost acc0: Account)
    returns (inFlight: seq<nat>, outcomes: seq<Outcome<U, T>>, died: bool, ghost acc: Account)
    requires Ledger(acc0, inFlight0, next, |units|, width) && Accounted(units, work, outcomes0, acc0)
    requires index in inFlight0
    ensures Ledger(acc, inFlight, next, |units|, width) && Accounted(units, work, outcomes, acc)
    ensures acc == Answer(acc0, index, died)
    ensures multiset(inFlight0) == multiset(inFlight) + multiset{index} && |inFlight| + 1 == |inFlight0|
    ensures TakenCount(acc.taken) == TakenCount(acc0.taken) + if died then 1 else 0
  {
    var k: nat :| k < |inFlight0| && inFlight0[k] == index;
    inFlight := inFlight0[..k] + inFlight0[k + 1..];
    RemoveAt(inFlight0, k);
    died := *;
    LedgerAnswer(acc0, inFlight0, k, died, next, |units|, width);
    var outcome: Outcome<U, T>;
    if died {
      var error: string := *;
      outcome := Failed(units[index], error);
    } else {
      match work(units[index]) {
        case Value(v) => outcome := Served(units[index], v);
        case Raised(e) => outcome := Failed(units[index], e);
      }
    }
    AnswerAccounted(units, work, outcomes0, acc0, index, outcome, died);
    outcomes := outcomes0 + [outcome];
    acc := Answer(acc0, index, died);
  }

  /** The result loop over `done`: each future's own outcome, until one reports that
      its pool died. */
  method CollectPhase<U, T>(units: seq<U>, work: U -> WorkResult<T>, done: seq<nat>, inFlight0: seq<nat>,
                            ghost next: nat, ghost width: nat,
                            outcomes0: seq<Outcome<U, T>>, ghost acc0: Account)
    returns (inFlight: seq<nat>, outcomes: seq<Outcome<U, T>>, died: bool, ghost acc: Account)
    requires Ledger(acc0, inFlight0, next, |units|, width) && Accounted(units, work, outcomes0, acc0)
    requires DoneSelection(done, inFlight0)
    ensures Ledger(acc, inFlight, next, |units|, width) && Accounted(units, work, outcomes, acc)
    ensures acc == acc0.(positions := acc.positions, taken := acc.taken)
    ensures |inFlight| < |inFlight0|
    ensures TakenCount(acc.taken) == TakenCount(acc0.taken) + if died then 1 else 0
  {
    inFlight, outcomes, died, acc := inFlight0, outcomes0, false, acc0;
    var n := 0;
    while n < |done| && !died
      invariant n <= |done| && (died ==> n > 0)
      invariant Ledger(acc, inFlight, next, |units|, width) && Accounted(units, work, outcomes, acc)
      invariant acc == acc0.(positions := acc.positions, taken := acc.taken)
      invariant multiset(done[n..]) <= multiset(inFlight)
      invariant |inFlight| == |inFlight0| - n
      invariant TakenCount(acc.taken) == TakenCount(acc0.taken) + if died then 1 else 0
    {
      var index := done[n];
      assert done[n..] == [index] + done[n + 1..];
      assert multiset(done[n..]) == multiset{index} + multiset(done[n + 1..]);
      assert index in multiset(done[n..]);
      ghost var flying := inFlight;
      inFlight, outcomes, died, acc := CollectOne(units, work, index, inFlight, next, width, outcomes, acc);
      CancelOne(multiset(done[n + 1..]), multiset(inFlight), index);
      n := n + 1;
    }
  }

  /** Draining a dead pool: every filing still in flight gets the pool's error. */
  method DrainPool<U, T>(units: seq<U>, work: U -> WorkResult<T>, inFlight: seq<nat>, error: string,
                         outcomes0: seq<Outcome<U, T>>, ghost acc0: Account)
    returns (outcomes: seq<Outcome<U, T>>, ghost acc: Account)
    requires Accounted(units, work, outcomes0, acc0)
    requires forall k :: 0 <= k < |inFlight| ==> inFlight[k] < |units|
    ensures Accounted(units, work, outcomes, acc)
    ensures acc == acc0.(positions := acc.positions, taken := acc.taken)
    ensures multiset(acc.positions) == multiset(acc0.positions) + multiset(inFlight)
    ensures TakenCount(acc.taken) == TakenCount(acc0.taken) + |inFlight|
  {
    outcomes, acc := outcomes0, acc0;
    for n := 0 to |inFlight|
      invariant Accounted(units, work, outcomes, acc)
      invariant acc == acc0.(positions := acc.positions, taken := acc.taken)
      invariant multiset(acc.positions) == multiset(acc0.positions) + multiset(inFlight[..n])
      invariant TakenCount(acc.taken) == TakenCount(acc0.taken) + n
    {
      var index := inFlight[n];
      assert inFlight[..n + 1] == inFlight[..n] + [index];
      AnswerAccounted(units, work, outcomes, acc, index, Failed(units[index], error), true);
      acc := Answer(acc, index, true);
      outcomes := outcomes + [Failed(units[index], error)];
    }
    assert inFlight[..|inFlight|] == inFlight;
  }

  /** One pool's life: submit, wait, collect, until nothing is left or the pool dies.
      A pool that does not die leaves nothing to do. */
  method RunPool<U, T>(units: seq<U>, work: U -> WorkResult<T>, width: nat, next0: nat, outcomes0: seq<Outcome<U, T>>,
                       ghost acc0: Account)
    returns (inFlight: seq<nat>, next: nat, submitted: nat, died: bool, outcomes: seq<Outcome<U, T>>,
             ghost acc: Account)
    requires width >= 1 && next0 < |units|
    requires Ledger(acc0, [], next0, |units|, width) && Accounted(units, work, outcomes0, acc0)
    ensures Ledger(acc, inFlight, next, |units|, width) && Accounted(units, work, outcomes, acc)
    ensures acc.broken == acc0.broken && acc.startupDeath == acc0.startupDeath
    ensures submitted == next - next0
    ensures TakenCount(acc.taken) + |inFlight| <= TakenCount(acc0.taken) + width
    ensures !died ==> inFlight == [] && next == |units| && TakenCount(acc.taken) == TakenCount(acc0.taken)
    ensures died && submitted == 0 ==> TakenCount(acc.taken) == TakenCount(acc0.taken) && inFlight == []
  {
    inFlight, next, submitted, died, outcomes, acc := [], next0, 0, false, outcomes0, acc0;
    while next < |units| || inFlight != []
      invariant Ledger(acc, inFlight, next, |units|, width) && Accounted(units, work, outcomes, acc)
      invariant acc.broken == acc0.broken && acc.startupDeath == acc0.startupDeath
      invariant next0 <= next && submitted == next - next0
      invariant TakenCount(acc.taken) == TakenCount(acc0.taken) && |inFlight| <= submitted
      decreases 2 * (|units| - next) + |inFlight|
    {
      inFlight, next, submitted, died, acc := SubmitPhase(|units|, width, inFlight, next, submitted, acc);
      if died || inFlight == [] {
        break;
      }
      var done: seq<nat> := ChooseDone(inFlight);
      inFlight, outcomes, died, acc := CollectPhase(units, work, done, inFlight, next, width, outcomes, acc);
      if died {
        break;
      }
    }
  }

  /** `wait(in_flight, return_when=FIRST_COMPLETED)`. */
  method ChooseDone(inFlight: seq<nat>) returns (done: seq<nat>)
    requires inFlight != []
    ensures DoneSelection(done, inFlight)
  {
    assert inFlight == [inFlight[0]] + inFlight[1..];
    assert DoneSelection([inFlight[0]], inFlight);
    done :| DoneSelection(done, inFlight);
  }

  /** The state between pools: nothing in flight, and what dead pools took. */
  ghost predicate BetweenPools<U, T>(units: seq<U>, work: U -> WorkResult<T>, outcomes: seq<Outcome<U, T>>,
                                     acc: Account, next: nat, width: nat) {
    && Ledger(acc, [], next, |units|, width) && Accounted(units, work, outcomes, acc)
    && acc.broken <= next && !acc.startupDeath
    && TakenCount(acc.taken) <= width * acc.broken
  }

  lemma PoolDied<U, T>(units: seq<U>, work: U -> WorkResult<T>, outcomes: seq<Outcome<U, T>>, before: Account,
                       after: Account, next0: nat, next: nat, width: nat)
    requires next0 < next <= |units| && before.broken <= next0 && !before.startupDeath
    requires TakenCount(before.taken) <= width * before.broken
    requires after.broken == before.broken && !after.startupDeath
    requires Ledger(after, [], next, |units|, width) && Accounted(units, work, outcomes, after)
    requires TakenCount(after.taken) <= TakenCount(before.taken) + width
    ensures BetweenPools(units, work, outcomes, after.(broken := before.broken + 1), next, width)
  {
    assert width * (before.broken + 1) == width * before.broken + width;
  }

  /** The range of positions a startup death leaves unsubmitted. */
  function Unsubmitted(next: nat, total: nat): seq<nat>
    requires next <= total
  {
    seq(total - next, i requires 0 <= i < total - next => next + i)
  }

  lemma FirstsSplit(next: nat, total: nat)
    requires next <= total
    ensures Firsts(total) == Firsts(next) + Unsubmitted(next, total)
  {
  }

  /** `_pool_outcomes`, for every schedule of completions, task failures and pool
      deaths: each unit position is answered exactly once; positions are submitted
      in order, each at most once, never more than `width` in flight; an outcome is
      the unit's own unless a dying pool took the unit, and each pool takes at most
      `width`; only a pool that dies before accepting anything ends the run early. */
  method PoolOutcomes<U, T>(units: seq<U>, work: U -> WorkResult<T>, width: nat)
    returns (outcomes: seq<Outcome<U, T>>, ghost acc: Account)
    requires width >= 1
    ensures Accounted(units, work, outcomes, acc)
    ensures multiset(UnitsOf(outcomes)) == multiset(units) && ServesOwnValues(work, outcomes)
    ensures multiset(acc.positions) == multiset(Firsts(|units|))
    ensures forall k, v :: 0 <= k < |outcomes| && !acc.taken[k] ==>
              (outcomes[k] == Served(units[acc.positions[k]], v) <==> work(units[acc.positions[k]]) == Value(v))
    ensures forall k, e :: 0 <= k < |outcomes| && !acc.taken[k] ==>
              (outcomes[k] == Failed(units[acc.positions[k]], e) <==> work(units[acc.positions[k]]) == Raised(e))
    ensures forall k, u, v :: 0 <= k < |outcomes| && outcomes[k] == Served(u, v) ==> work(u) == Value(v)
    ensures |acc.submissions| <= |units| && acc.submissions == Firsts(|acc.submissions|)
    ensures acc.peak <= width
    ensures acc.broken <= |acc.submissions|
    ensures !acc.startupDeath ==> |acc.submissions| == |units| && TakenCount(acc.taken) <= width * acc.broken
    ensures acc.startupDeath ==> TakenCount(acc.taken) <= width * acc.broken + (|units| - |acc.submissions|)
  {
    var next := 0;
    outcomes, acc := [], Account([], [], [], 0, false, 0);
    while next < |units|
      invariant BetweenPools(units, work, outcomes, acc, next, width)
    {
      ghost var before := acc;
      var inFlight, next', submitted, died;
      inFlight, next', submitted, died, outcomes, acc := RunPool(units, work, width, next, outcomes, acc);
      if died {
        var error: string := *;
        outcomes, acc := DrainPool(units, work, inFlight, error, outcomes, acc);
        if submitted == 0 {
          FirstsSplit(next', |units|);
          outcomes, acc := DrainPool(units, work, Unsubmitted(next', |units|), error, outcomes, acc);
          acc := acc.(startupDeath := true);
          NoUnitLost(units, work, outcomes, acc);
          return;
        }
        PoolDied(units, work, outcomes, before, acc, next, next', width);
        acc := acc.(broken := before.broken + 1);
      }
      next := next';
    }
    NoUnitLost(units, work, outcomes, acc);
  }

  // -------------------------------------------------------- what callers rely on

  /** Every unit position is answered by exactly one outcome. */
  lemma EachPositionOnce(positions: seq<nat>, total: nat, i: nat)
    requires multiset(positions) == multiset(Firsts(total)) && i < total
    ensures |positions| == total
    ensures exists k :: 0 <= k < total && positions[k] == i
    ensures forall j, k :: 0 <= j < total && 0 <= k < total && positions[j] == i && positions[k] == i ==> j == k
  {
    assert |multiset(positions)| == |multiset(Firsts(total))|;
    FirstsOnce(total, i);
    assert Firsts(total)[i] == i;
    assert i in multiset(positions);
    forall j, k | 0 <= j < total && 0 <= k < total && positions[j] == i && positions[k] == i ensures j == k {
      if j < k { TwiceCounted(positions, j, k); }
      if k < j { TwiceCounted(positions, k, j); }
    }
  }

  lemma TwiceCounted(s: seq<nat>, j: nat, k: nat)
    requires j < k < |s| && s[j] == s[k]
    ensures multiset(s)[s[j]] >= 2
  {
    assert s == s[..j] + [s[j]] + s[j + 1..k] + [s[k]] + s[k + 1..];
  }

  lemma {:induction false} FirstsOnce(n: nat, i: nat)
    ensures multiset(Firsts(n))[i] == if i < n then 1 else 0
  {
    if n > 0 {
      FirstsGrow(n - 1);
      FirstsOnce(n - 1, i);
    }
  }

  lemma {:induction false} NothingTaken(taken: seq<bool>)
    requires TakenCount(taken) == 0
    ensures forall k :: 0 <= k < |taken| ==> !taken[k]
  {
    if taken != [] {
      NothingTaken(taken[..|taken| - 1]);
    }
  }

  ghost predicate AllBelow(positions: seq<nat>, n: nat) {
    forall j :: 0 <= j < |positions| ==> positions[j] < n
  }

  /** Removing the largest position leaves a permutation of the others. */
  lemma RemoveLargest(positions: seq<nat>, k: nat, n: nat)
    requires multiset(positions) == multiset(Firsts(n + 1)) && k < |positions| && positions[k] == n
    ensures multiset(positions[..k] + positions[k + 1..]) == multiset(Firsts(n))
    ensures AllBelow(positions[..k] + positions[k + 1..], n)
  {
    var rest := positions[..k] + positions[k + 1..];
    RemoveAt(positions, k);
    FirstsGrow(n);
    assert multiset(Firsts(n + 1)) == multiset(Firsts(n)) + multiset{n};
    CancelOne(multiset(rest), multiset(Firsts(n)), n);
    CancelOne(multiset(Firsts(n)), multiset(rest), n);
    forall j | 0 <= j < |rest| ensures rest[j] < n {
      assert rest[j] in multiset(rest);
      FirstsOnce(n, rest[j]);
    }
  }

  ghost predicate Images<A>(positions: seq<nat>, source: seq<A>, images: seq<A>) {
    && |images| == |positions|
    && forall k :: 0 <= k < |positions| ==> positions[k] < |source| && images[k] == source[positions[k]]
  }

  lemma ImagesWithout<A>(positions: seq<nat>, source: seq<A>, images: seq<A>, k: nat, n: nat)
    requires Images(positions, source, images) && k < |positions| && n <= |source|
    requires AllBelow(positions[..k] + positions[k + 1..], n)
    ensures Images(positions[..k] + positions[k + 1..], source[..n], images[..k] + images[k + 1..])
  {
    var rest, others := positions[..k] + positions[k + 1..], images[..k] + images[k + 1..];
    forall j | 0 <= j < |rest| ensures others[j] == source[..n][rest[j]] {
      assert rest[j] == positions[if j < k then j else j + 1];
      assert others[j] == images[if j < k then j else j + 1];
    }
  }

  lemma {:induction false} ImagesPermute<A>(positions: seq<nat>, source: seq<A>, images: seq<A>)
    requires Images(positions, source, images)
    requires multiset(positions) == multiset(Firsts(|source|))
    ensures multiset(images) == multiset(source)
    decreases |source|
  {
    if source == [] {
      assert |multiset(positions)| == 0;
    } else {
      var n := |source| - 1;
      EachPositionOnce(positions, n + 1, n);
      var k :| 0 <= k < |positions| && positions[k] == n;
      RemoveLargest(positions, k, n);
      ImagesWithout(positions, source, images, k, n);
      ImagesPermute(positions[..k] + positions[k + 1..], source[..n], images[..k] + images[k + 1..]);
      RemoveAt(images, k);
      RemoveAt(source, n);
      assert source[..n] + source[n + 1..] == source[..n];
    }
  }

  /** When no pool dies, the pool changes only the order: its outcomes are a
      permutation of the sequential ones. */
  lemma QuietPoolEqualsSequential<U, T>(units: seq<U>, work: U -> WorkResult<T>, outcomes: seq<Outcome<U, T>>,
                                        acc: Account, sequential: seq<Outcome<U, T>>)
    requires Accounted(units, work, outcomes, acc)
    requires multiset(acc.positions) == multiset(Firsts(|units|))
    requires TakenCount(acc.taken) == 0
    requires ReportsAll(units, work, sequential)
    ensures multiset(outcomes) == multiset(sequential)
  {
    NothingTaken(acc.taken);
    forall k | 0 <= k < |outcomes| ensures outcomes[k] == sequential[acc.positions[k]] {
      assert AnswersUnit(units[acc.positions[k]], work, outcomes[k], acc.taken[k]);
      assert Reports(units[acc.positions[k]], work, sequential[acc.positions[k]]);
    }
    ImagesPermute(acc.positions, sequential, outcomes);
  }

  /** A value reported for a unit is the one its own work gives. */
  ghost predicate ServesOwnValues<U, T>(work: U -> WorkResult<T>, outcomes: seq<Outcome<U, T>>) {
    forall k :: 0 <= k < |outcomes| && outcomes[k].Served? ==> work(outcomes[k].unit) == Value(outcomes[k].value)
  }

  /** No lost run: under every schedule the units answered are the units given, and no
      unit is given another unit's value. */
  lemma NoUnitLost<U, T>(units: seq<U>, work: U -> WorkResult<T>, outcomes: seq<Outcome<U, T>>, acc: Account)
    requires Accounted(units, work, outcomes, acc)
    requires multiset(acc.positions) == multiset(Firsts(|units|))
    ensures multiset(UnitsOf(outcomes)) == multiset(units) && ServesOwnValues(work, outcomes)
  {
    forall k | 0 <= k < |outcomes| && outcomes[k].Served?
      ensures work(outcomes[k].unit) == Value(outcomes[k].value)
    {
      assert AnswersUnit(units[acc.positions[k]], work, outcomes[k], acc.taken[k]);
    }
    forall k | 0 <= k < |outcomes| ensures UnitsOf(outcomes)[k] == units[acc.positions[k]] {
      assert AnswersUnit(units[acc.positions[k]], work, outcomes[k], acc.taken[k]);
    }
    ImagesPermute(acc.positions, units, UnitsOf(outcomes));
  }

  function UnitsOf<U, T>(outcomes: seq<Outcome<U, T>>): seq<U> {
    seq(|outcomes|, k requires 0 <= k < |outcomes| => outcomes[k].unit)
  }

  /** `stream_filing_outcomes`: sequential for one worker or one filing. */
  method StreamFilingOutcomes<U, T>(units: seq<U>, work: U -> WorkResult<T>, workers: nat)
    returns (outcomes: seq<Outcome<U, T>>)
    ensures multiset(UnitsOf(outcomes)) == multiset(units) && ServesOwnValues(work, outcomes)
    ensures workers <= 1 || |units| <= 1 ==> ReportsAll(units, work, outcomes)
    ensures workers <= 1 || |units| <= 1 ==>
              forall i, v :: 0 <= i < |units| ==> (outcomes[i] == Served(units[i], v) <==> work(units[i]) == Value(v))
    ensures workers <= 1 || |units| <= 1 ==>
              forall i, e :: 0 <= i < |units| ==> (outcomes[i] == Failed(units[i], e) <==> work(units[i]) == Raised(e))
    ensures forall k, u, v :: 0 <= k < |outcomes| && outcomes[k] == Served(u, v) ==> work(u) == Value(v)
  {
    if workers <= 1 || |units| <= 1 {
      outcomes := SequentialOutcomes(units, work);
      assert UnitsOf(outcomes) == units;
    } else {
      ghost var acc;
      outcomes, acc := PoolOutcomes(units, work, workers);
      NoUnitLost(units, work, outcomes, acc);
    }
  }
}
