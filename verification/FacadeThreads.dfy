/** The facade cache under any number of threads: every section guarded by the
    main lock is one atomic step, and the builder runs between steps under a
    per-key build lock (edgar_sec/apps/client/facade.py:78-105). */
module FacadeThreads {
  import opened Common
  import opened FacadeCache

  /** Where one call of `get_or_build` stands. Build locks are named by serial
      numbers, facades by identities. */
  datatype Phase<K> =
    | Idle
    | Start(key: K)
    | Waiting(key: K, lock: nat)
    | Holding(key: K, lock: nat)
    | Building(key: K, lock: nat)
    | Built(key: K, lock: nat, facade: nat)
    | Leaving(key: K, lock: nat, result: Option<nat>)
    | Returned(key: K, served: nat)
    | Raised(key: K)

  /** `madeFor` records the key each build lock was created for, and `succeeded`
      every builder that returned, in order. */
  datatype State<K> = State(
    threads: seq<Phase<K>>,
    entries: seq<Entry<K, nat>>,
    buildLocks: map<K, nat>,
    owner: map<nat, nat>,
    nextLock: nat,
    madeFor: map<nat, K>,
    nextFacade: nat,
    succeeded: seq<Entry<K, nat>>)

  /** Thread count, capacity, the keys callers use, and whether anyone clears. */
  datatype Config<!K> = Config(threads: nat, capacity: nat, keys: set<K>, clears: bool)

  datatype Step<K> =
    | Call(t: nat, k: K)
    | FirstCheck(t: nat)
    | Acquire(t: nat)
    | Recheck(t: nat)
    | BuildSucceeds(t: nat)
    | BuildFails(t: nat)
    | Publish(t: nat)
    | Release(t: nat)
    | Clear

  function Init<K(==)>(c: Config<K>): State<K> {
    State(seq(c.threads, _ => Idle), [], map[], map[], 0, map[], 0, [])
  }

  predicate HasCall<K>(p: Phase<K>) {
    !p.Idle?
  }

  predicate UsesLock<K>(p: Phase<K>) {
    p.Waiting? || OwnsLock(p)
  }

  predicate OwnsLock<K>(p: Phase<K>) {
    p.Holding? || InBuild(p) || p.Leaving?
  }

  /** A builder is running, or has returned and not yet published. */
  predicate InBuild<K>(p: Phase<K>) {
    p.Building? || p.Built?
  }

  function Lookup<K(==)>(entries: seq<Entry<K, nat>>, k: K): Option<nat> {
    match IndexOf(entries, k)
    case None => None
    case Some(i) => Some(entries[i].facade)
  }

  /** `move_to_end`. */
  function Touch<K(==)>(entries: seq<Entry<K, nat>>, k: K): seq<Entry<K, nat>> {
    match IndexOf(entries, k)
    case None => entries
    case Some(i) => WithoutAt(entries, i) + [entries[i]]
  }

  /** `entries[key] = facade`, then evict the oldest beyond capacity. */
  function Put<K(==)>(entries: seq<Entry<K, nat>>, k: K, facade: nat, capacity: nat): seq<Entry<K, nat>> {
    match IndexOf(entries, k)
    case None => LastN(entries + [Entry(k, facade)], capacity)
    case Some(i) => LastN(entries[i := Entry(k, facade)], capacity)
  }

  predicate Enabled<K(==)>(c: Config<K>, s: State<K>, step: Step<K>) {
    match step
    case Call(t, k) => t < |s.threads| && k in c.keys
        && (s.threads[t].Idle? || s.threads[t].Returned? || s.threads[t].Raised?)
    case FirstCheck(t) => t < |s.threads| && s.threads[t].Start?
    case Acquire(t) => t < |s.threads| && s.threads[t].Waiting? && s.threads[t].lock !in s.owner
    case Recheck(t) => t < |s.threads| && s.threads[t].Holding?
    case BuildSucceeds(t) => t < |s.threads| && s.threads[t].Building?
    case BuildFails(t) => t < |s.threads| && s.threads[t].Building?
    case Publish(t) => t < |s.threads| && s.threads[t].Built?
    case Release(t) => t < |s.threads| && s.threads[t].Leaving?
    case Clear => c.clears
  }

  function Become<K>(s: State<K>, t: nat, p: Phase<K>): State<K>
    requires t < |s.threads|
  {
    s.(threads := s.threads[t := p])
  }

  function Apply<K(==)>(c: Config<K>, s: State<K>, step: Step<K>): State<K>
    requires Enabled(c, s, step)
  {
    match step
    case Call(t, k) => Become(s, t, Start(k))
    case FirstCheck(t) => ApplyFirstCheck(s, t)
    case Acquire(t) =>
      var p := s.threads[t];
      Become(s, t, Holding(p.key, p.lock)).(owner := s.owner[p.lock := t])
    case Recheck(t) =>
      var p := s.threads[t];
      var hit := Lookup(s.entries, p.key);
      if hit.Some? then Become(s, t, Leaving(p.key, p.lock, hit)).(entries := Touch(s.entries, p.key))
      else Become(s, t, Building(p.key, p.lock))
    case BuildSucceeds(t) =>
      var p := s.threads[t];
      Become(s, t, Built(p.key, p.lock, s.nextFacade))
        .(nextFacade := s.nextFacade + 1, succeeded := s.succeeded + [Entry(p.key, s.nextFacade)])
    case BuildFails(t) =>
      var p := s.threads[t];
      Become(s, t, Leaving(p.key, p.lock, None))
    case Publish(t) =>
      var p := s.threads[t];
      Become(s, t, Leaving(p.key, p.lock, Some(p.facade)))
        .(entries := Put(s.entries, p.key, p.facade, c.capacity),
          buildLocks := if p.key in s.buildLocks && s.buildLocks[p.key] == p.lock then s.buildLocks - {p.key}
              else s.buildLocks)
    case Release(t) =>
      var p := s.threads[t];
      Become(s, t, if p.result.Some? then Returned(p.key, p.result.value)
             else Raised(p.key)).(owner := s.owner - {p.lock})
    case Clear => s.(entries := [], buildLocks := map[])
  }

  function ApplyFirstCheck<K(==)>(s: State<K>, t: nat): State<K>
    requires t < |s.threads| && s.threads[t].Start?
  {
    var k := s.threads[t].key;
    var hit := Lookup(s.entries, k);
    if hit.Some? then Become(s, t, Returned(k, hit.value)).(entries := Touch(s.entries, k))
    else if k in s.buildLocks then Become(s, t, Waiting(k, s.buildLocks[k]))
    else Become(s, t, Waiting(k, s.nextLock)).(buildLocks := s.buildLocks[k := s.nextLock],
                                               nextLock := s.nextLock + 1, madeFor := s.madeFor[s.nextLock := k])
  }

  /** The state a schedule leads to, if every step of it is possible. */
  function Exec<K(==)>(c: Config<K>, s: State<K>, steps: seq<Step<K>>): Option<State<K>>
    decreases |steps|
  {
    if steps == [] then Some(s)
    else if !Enabled(c, s, steps[0]) then None
    else Exec(c, Apply(c, s, steps[0]), steps[1..])
  }

  /** Some schedule from the start leads to `s`. */
  ghost predicate Reachable<K(!new)>(c: Config<K>, s: State<K>) {
    exists steps :: Exec(c, Init(c), steps) == Some(s)
  }

  // ------------------------------------------------------------ what is promised

  ghost predicate OneBuilderPerKey<K(!new)>(s: State<K>) {
    forall t, u | 0 <= t < |s.threads| && 0 <= u < |s.threads| && InBuild(s.threads[t]) && InBuild(s.threads[u]) ::
      s.threads[t].key == s.threads[u].key ==> t == u
  }

  ghost predicate OneSuccessPerKey<K(!new)>(s: State<K>) {
    forall i, j :: 0 <= i < |s.succeeded| && 0 <= j < |s.succeeded| && s.succeeded[i].key == s.succeeded[j].key ==>
        i == j
  }

  /** Every call that returned for one key got the one facade built for it. */
  ghost predicate SameFacadeForAll<K(!new)>(s: State<K>) {
    && (forall t, u | 0 <= t < |s.threads| && 0 <= u < |s.threads| && s.threads[t].Returned?
        && s.threads[u].Returned? ::
          s.threads[t].key == s.threads[u].key ==> s.threads[t].served == s.threads[u].served)
    && (forall t :: 0 <= t < |s.threads| && s.threads[t].Returned? ==>
        Entry(s.threads[t].key, s.threads[t].served) in s.succeeded)
  }

  // --------------------------------------------------------- the entries as a map

  ghost predicate DistinctKeys<K(!new)>(entries: seq<Entry<K, nat>>) {
    forall i, j :: 0 <= i < j < |entries| ==> entries[i].key != entries[j].key
  }

  lemma {:induction false} LookupIs<K(!new)>(entries: seq<Entry<K, nat>>, i: nat)
    requires DistinctKeys(entries) && i < |entries|
    ensures Lookup(entries, entries[i].key) == Some(entries[i].facade)
  {
    assert KeysOf(entries)[i] == entries[i].key;
  }

  lemma LookupHas<K(!new)>(entries: seq<Entry<K, nat>>, k: K)
    ensures Lookup(entries, k).Some? <==> k in KeysOf(entries)
    ensures Lookup(entries, k).Some? ==> Entry(k, Lookup(entries, k).value) in entries
  {
    var found := IndexOf(entries, k);
    if found.Some? {
      assert KeysOf(entries)[found.value] == k;
    }
  }

  /** Entry lists with distinct keys and the same members look up alike. */
  lemma SameMembersSameLookup<K(!new)>(a: seq<Entry<K, nat>>, b: seq<Entry<K, nat>>, k: K)
    requires DistinctKeys(a) && DistinctKeys(b)
    requires forall e :: e in a ==> e in b
    requires Lookup(a, k).Some?
    ensures Lookup(b, k) == Lookup(a, k)
  {
    LookupHas(a, k);
    var e := Entry(k, Lookup(a, k).value);
    assert e in b;
    var i :| 0 <= i < |b| && b[i] == e;
    LookupIs(b, i);
  }

  lemma TouchKeeps<K(!new)>(entries: seq<Entry<K, nat>>, k: K)
    requires DistinctKeys(entries)
    ensures DistinctKeys(Touch(entries, k)) && |Touch(entries, k)| == |entries|
    ensures forall x :: Lookup(Touch(entries, k), x) == Lookup(entries, x)
  {
    var found := IndexOf(entries, k);
    if found.Some? {
      var i := found.value;
      var t := Touch(entries, k);
      forall a | 0 <= a < |t| ensures t[a] == entries[if a < i then a else if a < |t| - 1 then a + 1 else i] {
      }
      forall e ensures e in entries <==> e in t {
        if e in entries {
          var j :| 0 <= j < |entries| && entries[j] == e;
          assert t[if j < i then j else if j == i then |t| - 1 else j - 1] == e;
        }
      }
      forall x ensures Lookup(t, x) == Lookup(entries, x) {
        if Lookup(t, x).Some? { SameMembersSameLookup(t, entries, x); }
        if Lookup(entries, x).Some? { SameMembersSameLookup(entries, t, x); }
      }
    }
  }

  /** Publishing an absent key while there is room. */
  lemma PutKeeps<K(!new)>(entries: seq<Entry<K, nat>>, k: K, facade: nat, capacity: nat)
    requires DistinctKeys(entries) && Lookup(entries, k).None? && |entries| < capacity
    ensures Put(entries, k, facade, capacity) == entries + [Entry(k, facade)]
    ensures DistinctKeys(Put(entries, k, facade, capacity))
    ensures forall x :: Lookup(Put(entries, k, facade, capacity), x) == if x == k then Some(facade)
              else Lookup(entries, x)
  {
    LookupHas(entries, k);
    var t := entries + [Entry(k, facade)];
    forall i | 0 <= i < |entries| ensures entries[i].key != k {
      assert KeysOf(entries)[i] == entries[i].key;
    }
    assert DistinctKeys(t);
    forall x ensures Lookup(t, x) == if x == k then Some(facade) else Lookup(entries, x) {
      if x == k {
        LookupIs(t, |entries|);
      } else {
        if Lookup(entries, x).Some? { SameMembersSameLookup(entries, t, x); }
        if Lookup(t, x).Some? {
          LookupHas(t, x);
          var i :| 0 <= i < |t| && t[i] == Entry(x, Lookup(t, x).value);
          LookupIs(entries, i);
        }
      }
    }
  }

  // ------------------------------------------------- the cache is always bounded

  /** Publishing, with or without evictions, keeps the keys distinct and adds only its
      own. */
  lemma PutDistinct<K(!new)>(entries: seq<Entry<K, nat>>, k: K, facade: nat, capacity: nat)
    requires DistinctKeys(entries)
    ensures DistinctKeys(Put(entries, k, facade, capacity))
    ensures forall e :: e in Put(entries, k, facade, capacity) ==> e.key == k || e in entries
  {
    var found := IndexOf(entries, k);
    if found.None? {
      forall i | 0 <= i < |entries| ensures entries[i].key != k {
        assert KeysOf(entries)[i] == entries[i].key;
      }
      LastNDistinct(entries + [Entry(k, facade)], capacity);
    } else {
      LastNDistinct(entries[found.value := Entry(k, facade)], capacity);
    }
  }

  lemma LastNDistinct<K(!new)>(entries: seq<Entry<K, nat>>, n: nat)
    requires DistinctKeys(entries)
    ensures DistinctKeys(LastN(entries, n))
    ensures forall e :: e in LastN(entries, n) ==> e in entries
  {}

  lemma TouchMembers<K(!new)>(entries: seq<Entry<K, nat>>, k: K)
    ensures forall e :: e in Touch(entries, k) ==> e in entries
  {}

  ghost predicate Bounded<K(!new)>(c: Config<K>, s: State<K>) {
    && |s.entries| <= c.capacity && DistinctKeys(s.entries)
    && (forall e :: e in s.entries ==> e.key in c.keys)
    && (forall t | 0 <= t < |s.threads| && HasCall(s.threads[t]) :: s.threads[t].key in c.keys)
  }

  lemma TouchBounded<K(!new)>(c: Config<K>, s: State<K>, k: K)
    requires Bounded(c, s)
    ensures Bounded(c, s.(entries := Touch(s.entries, k)))
  {
    TouchKeeps(s.entries, k);
    TouchMembers(s.entries, k);
  }

  lemma PutBounded<K(!new)>(c: Config<K>, s: State<K>, k: K, facade: nat)
    requires Bounded(c, s) && k in c.keys
    ensures Bounded(c, s.(entries := Put(s.entries, k, facade, c.capacity)))
  {
    PutDistinct(s.entries, k, facade, c.capacity);
  }

  /** A thread moves on within its call, or takes up a key in use. */
  lemma MoveBounded<K(!new)>(c: Config<K>, s: State<K>, n: State<K>, t: nat)
    requires Bounded(c, s) && t < |s.threads| == |n.threads| && n.entries == s.entries
    requires n.threads == s.threads[t := n.threads[t]]
    requires HasCall(n.threads[t]) ==> n.threads[t].key in c.keys
    ensures Bounded(c, n)
  {}

  lemma PublishKeepsBound<K(!new)>(c: Config<K>, s: State<K>, t: nat)
    requires Bounded(c, s) && Enabled(c, s, Publish(t))
    ensures Bounded(c, Apply(c, s, Publish(t)))
  {
    var n := Apply(c, s, Publish(t));
    PutBounded(c, s, s.threads[t].key, s.threads[t].facade);
    MoveBounded(c, s.(entries := n.entries), n, t);
  }

  lemma CheckKeepsBound<K(!new)>(c: Config<K>, s: State<K>, step: Step<K>)
    requires Bounded(c, s) && Enabled(c, s, step) && (step.FirstCheck? || step.Recheck?)
    ensures Bounded(c, Apply(c, s, step))
  {
    var n := Apply(c, s, step);
    TouchBounded(c, s, s.threads[step.t].key);
    MoveBounded(c, s.(entries := n.entries), n, step.t);
  }

  lemma StepKeepsBound<K(!new)>(c: Config<K>, s: State<K>, step: Step<K>)
    requires Bounded(c, s) && Enabled(c, s, step)
    ensures Bounded(c, Apply(c, s, step))
  {
    match step {
      case Publish(t) => PublishKeepsBound(c, s, t);
      case FirstCheck(_) => CheckKeepsBound(c, s, step);
      case Recheck(_) => CheckKeepsBound(c, s, step);
      case Clear =>
      case _ => MoveBounded(c, s, Apply(c, s, step), step.t);
    }
  }

  lemma {:induction false} RunKeepsBound<K(!new)>(c: Config<K>, s: State<K>, steps: seq<Step<K>>)
    requires Bounded(c, s) && Exec(c, s, steps).Some?
    ensures Bounded(c, Exec(c, s, steps).value)
    decreases |steps|
  {
    if steps != [] {
      StepKeepsBound(c, s, steps[0]);
      RunKeepsBound(c, Apply(c, s, steps[0]), steps[1..]);
    }
  }

  /** Whenever the main lock is free the cache holds at most `capacity` facades for
      distinct keys, in every interleaving, with clears and evictions. */
  lemma ReachableIsBounded<K(!new)>(c: Config<K>, s: State<K>)
    requires Reachable(c, s)
    ensures |s.entries| <= c.capacity && DistinctKeys(s.entries) && Bounded(c, s)
  {
    var steps :| Exec(c, Init(c), steps) == Some(s);
    RunKeepsBound(c, Init(c), steps);
  }

  // ------------------------------------- exclusive builds while nothing is evicted

  /** Nothing can leave the cache: the keys fit and nobody clears. */
  predicate NothingLeaves<K>(c: Config<K>) {
    |c.keys| <= c.capacity && !c.clears
  }

  /** Every lock in use or on offer was made for its user's key. */
  ghost predicate LocksOk<K(!new)>(s: State<K>) {
    && (forall t | 0 <= t < |s.threads| && UsesLock(s.threads[t]) ::
          s.threads[t].lock in s.madeFor && s.madeFor[s.threads[t].lock] == s.threads[t].key)
    && (forall k | k in s.buildLocks :: s.buildLocks[k] in s.madeFor && s.madeFor[s.buildLocks[k]] == k)
    && (forall l | l in s.madeFor :: l < s.nextLock)
  }

  ghost predicate OwnersOk<K(!new)>(s: State<K>) {
    && (forall t | 0 <= t < |s.threads| && OwnsLock(s.threads[t]) ::
          s.threads[t].lock in s.owner && s.owner[s.threads[t].lock] == t)
    && (forall l | l in s.owner ::
          s.owner[l] < |s.threads| && OwnsLock(s.threads[s.owner[l]]) && s.threads[s.owner[l]].lock == l)
  }

  ghost predicate KeysOk<K(!new)>(c: Config<K>, s: State<K>) {
    && DistinctKeys(s.entries)
    && (forall k | Lookup(s.entries, k).Some? :: k in c.keys)
    && (forall t | 0 <= t < |s.threads| && HasCall(s.threads[t]) :: s.threads[t].key in c.keys)
  }

  /** Contenders for an uncached key contend for one lock, and no cached key is
      being built. */
  ghost predicate BuildsOk<K(!new)>(s: State<K>) {
    && (forall t | 0 <= t < |s.threads| && UsesLock(s.threads[t]) && !s.threads[t].Leaving? ::
          Lookup(s.entries, s.threads[t].key).None? ==>
            s.threads[t].key in s.buildLocks && s.buildLocks[s.threads[t].key] == s.threads[t].lock)
    && (forall t | 0 <= t < |s.threads| && InBuild(s.threads[t]) :: Lookup(s.entries, s.threads[t].key).None?)
  }

  /** The successes are one per key: published, or about to be. */
  ghost predicate SuccessesOk<K(!new)>(s: State<K>) {
    && DistinctKeys(s.succeeded)
    && (forall k | Lookup(s.entries, k).Some? :: Entry(k, Lookup(s.entries, k).value) in s.succeeded)
    && (forall t | 0 <= t < |s.threads| && s.threads[t].Built? ::
        Entry(s.threads[t].key, s.threads[t].facade) in s.succeeded)
    && (forall e | e in s.succeeded :: Lookup(s.entries, e.key).Some? || PendingBuild(s, e.key))
  }

  ghost predicate PendingBuild<K>(s: State<K>, k: K) {
    exists t :: 0 <= t < |s.threads| && s.threads[t].Built? && s.threads[t].key == k
  }

  ghost predicate ResultsOk<K(!new)>(s: State<K>) {
    && (forall t | 0 <= t < |s.threads| && s.threads[t].Leaving? ::
          s.threads[t].result.Some? ==> Lookup(s.entries, s.threads[t].key) == s.threads[t].result)
    && (forall t | 0 <= t < |s.threads| && s.threads[t].Returned? ::
          Lookup(s.entries, s.threads[t].key) == Some(s.threads[t].served))
  }

  ghost predicate Inv<K(!new)>(c: Config<K>, s: State<K>) {
    LocksOk(s) && OwnersOk(s) && KeysOk(c, s) && BuildsOk(s) && SuccessesOk(s) && ResultsOk(s)
  }

  /** Two threads never build one key at once. */
  lemma InvExcludes<K(!new)>(c: Config<K>, s: State<K>)
    requires Inv(c, s)
    ensures OneBuilderPerKey(s)
  {
  }

  lemma InvServesOneFacade<K(!new)>(c: Config<K>, s: State<K>)
    requires Inv(c, s)
    ensures OneBuilderPerKey(s) && OneSuccessPerKey(s) && SameFacadeForAll(s)
  {
    InvExcludes(c, s);
    forall t, u | 0 <= t < |s.threads| && 0 <= u < |s.threads| && s.threads[t].Returned? && s.threads[u].Returned?
      ensures s.threads[t].key == s.threads[u].key ==> s.threads[t].served == s.threads[u].served
    {
      assert Lookup(s.entries, s.threads[t].key) == Some(s.threads[t].served);
      assert Lookup(s.entries, s.threads[u].key) == Some(s.threads[u].served);
    }
  }

  lemma KeysFit<K(!new)>(c: Config<K>, s: State<K>)
    requires KeysOk(c, s)
    ensures |s.entries| <= |c.keys|
    ensures forall k :: k in c.keys && Lookup(s.entries, k).None? ==> |s.entries| < |c.keys|
  {
    var keys := KeysOf(s.entries);
    forall i, j | 0 <= i < j < |keys| ensures keys[i] != keys[j] {
      assert s.entries[i].key != s.entries[j].key;
    }
    DistinctSize(keys);
    var cached := set k | k in keys;
    forall k | k in cached ensures k in c.keys {
      LookupHas(s.entries, k);
    }
    SubsetSize(cached, c.keys);
    forall k | k in c.keys && Lookup(s.entries, k).None? ensures |s.entries| < |c.keys| {
      LookupHas(s.entries, k);
      SubsetSize(cached, c.keys - {k});
    }
  }

  lemma InvInit<K(!new)>(c: Config<K>)
    ensures Inv(c, Init(c))
  {
  }

  lemma InvCall<K(!new)>(c: Config<K>, s: State<K>, t: nat, k: K)
    requires Inv(c, s) && Enabled(c, s, Call(t, k))
    ensures Inv(c, Apply(c, s, Call(t, k)))
  {
    var p := Start(k);
    LocksMove(s, t, p);
    OwnersMove(s, t, p);
    SuccessesMove(s, t, p);
    KeysMove(c, s, t, p);
    BuildsMove(s, t, p);
    ResultsMove(s, t, p);
  }

  /** A pending build survives a step of another thread. */
  lemma PendingElsewhere<K(!new)>(s: State<K>, n: State<K>, t: nat, k: K)
    requires t < |s.threads| && |n.threads| == |s.threads|
    requires forall u | 0 <= u < |s.threads| && u != t :: n.threads[u] == s.threads[u]
    requires !(s.threads[t].Built? && s.threads[t].key == k)
    ensures PendingBuild(s, k) ==> PendingBuild(n, k)
  {
    if PendingBuild(s, k) {
      var u :| 0 <= u < |s.threads| && s.threads[u].Built? && s.threads[u].key == k;
      assert n.threads[u] == s.threads[u];
    }
  }

  /** A thread that keeps its lock and key keeps the lock facts. */
  lemma LocksMove<K(!new)>(s: State<K>, t: nat, p: Phase<K>)
    requires LocksOk(s) && t < |s.threads|
    requires UsesLock(p) ==> UsesLock(s.threads[t]) && p.lock == s.threads[t].lock && p.key == s.threads[t].key
    ensures LocksOk(Become(s, t, p))
  {
  }

  lemma OwnersMove<K(!new)>(s: State<K>, t: nat, p: Phase<K>)
    requires OwnersOk(s) && t < |s.threads|
    requires OwnsLock(p) <==> OwnsLock(s.threads[t])
    requires OwnsLock(p) ==> p.lock == s.threads[t].lock
    ensures OwnersOk(Become(s, t, p))
  {
  }

  /** A thread that is not publishing leaves the success record in order. */
  lemma SuccessesMove<K(!new)>(s: State<K>, t: nat, p: Phase<K>)
    requires SuccessesOk(s) && t < |s.threads|
    requires !s.threads[t].Built? && !p.Built?
    ensures SuccessesOk(Become(s, t, p))
  {
    var n := Become(s, t, p);
    forall e | e in n.succeeded ensures Lookup(n.entries, e.key).Some? || PendingBuild(n, e.key) {
      PendingElsewhere(s, n, t, e.key);
    }
  }

  lemma KeysMove<K(!new)>(c: Config<K>, s: State<K>, t: nat, p: Phase<K>)
    requires KeysOk(c, s) && t < |s.threads|
    requires HasCall(p) ==> p.key in c.keys
    ensures KeysOk(c, Become(s, t, p))
  {
  }

  lemma BuildsMove<K(!new)>(s: State<K>, t: nat, p: Phase<K>)
    requires BuildsOk(s) && t < |s.threads|
    requires UsesLock(p) && !p.Leaving? && Lookup(s.entries, p.key).None? ==>
               p.key in s.buildLocks && s.buildLocks[p.key] == p.lock
    requires InBuild(p) ==> Lookup(s.entries, p.key).None?
    ensures BuildsOk(Become(s, t, p))
  {
  }

  lemma ResultsMove<K(!new)>(s: State<K>, t: nat, p: Phase<K>)
    requires ResultsOk(s) && t < |s.threads|
    requires p.Leaving? && p.result.Some? ==> Lookup(s.entries, p.key) == p.result
    requires p.Returned? ==> Lookup(s.entries, p.key) == Some(p.served)
    ensures ResultsOk(Become(s, t, p))
  {
  }

  /** A hit's `move_to_end` changes no lookup. */
  lemma InvTouch<K(!new)>(c: Config<K>, s: State<K>, k: K)
    requires Inv(c, s)
    ensures Inv(c, s.(entries := Touch(s.entries, k)))
  {
    var n := s.(entries := Touch(s.entries, k));
    TouchKeeps(s.entries, k);
    forall e | e in n.succeeded ensures Lookup(n.entries, e.key).Some? || PendingBuild(n, e.key) {
      if PendingBuild(s, e.key) {
        var u :| 0 <= u < |s.threads| && s.threads[u].Built? && s.threads[u].key == e.key;
        assert n.threads[u].Built?;
      }
    }
  }

  lemma InvReturn<K(!new)>(c: Config<K>, s: State<K>, t: nat)
    requires Inv(c, s) && t < |s.threads| && s.threads[t].Start? && Lookup(s.entries, s.threads[t].key).Some?
    ensures Inv(c, Become(s, t, Returned(s.threads[t].key, Lookup(s.entries, s.threads[t].key).value)))
  {
    var p := Returned(s.threads[t].key, Lookup(s.entries, s.threads[t].key).value);
    LocksMove(s, t, p);
    OwnersMove(s, t, p);
    SuccessesMove(s, t, p);
    KeysMove(c, s, t, p);
    BuildsMove(s, t, p);
    ResultsMove(s, t, p);
  }

  /** `setdefault` of a key nobody is building. */
  lemma InvNewLock<K(!new)>(c: Config<K>, s: State<K>, k: K)
    requires Inv(c, s) && k !in s.buildLocks && Lookup(s.entries, k).None?
    ensures Inv(c, WithNewLock(s, k))
  {
    var n := WithNewLock(s, k);
    forall e | e in n.succeeded ensures Lookup(n.entries, e.key).Some? || PendingBuild(n, e.key) {
      if PendingBuild(s, e.key) {
        var u :| 0 <= u < |s.threads| && s.threads[u].Built? && s.threads[u].key == e.key;
        assert n.threads[u].Built?;
      }
    }
  }

  lemma InvWait<K(!new)>(c: Config<K>, s: State<K>, t: nat)
    requires Inv(c, s) && t < |s.threads| && s.threads[t].Start? && s.threads[t].key in s.buildLocks
    ensures Inv(c, Become(s, t, Waiting(s.threads[t].key, s.buildLocks[s.threads[t].key])))
  {
    var n := Become(s, t, Waiting(s.threads[t].key, s.buildLocks[s.threads[t].key]));
    forall e | e in n.succeeded ensures Lookup(n.entries, e.key).Some? || PendingBuild(n, e.key) {
      PendingElsewhere(s, n, t, e.key);
    }
  }

  lemma InvFirstHit<K(!new)>(c: Config<K>, s: State<K>, t: nat)
    requires Inv(c, s) && Enabled(c, s, FirstCheck(t)) && Lookup(s.entries, s.threads[t].key).Some?
    ensures Inv(c, Apply(c, s, FirstCheck(t)))
  {
    var k := s.threads[t].key;
    InvReturn(c, s, t);
    InvTouch(c, Become(s, t, Returned(k, Lookup(s.entries, k).value)), k);
  }

  lemma InvFirstWait<K(!new)>(c: Config<K>, s: State<K>, t: nat)
    requires Inv(c, s) && Enabled(c, s, FirstCheck(t)) && Lookup(s.entries, s.threads[t].key).None?
    requires s.threads[t].key in s.buildLocks
    ensures Inv(c, Apply(c, s, FirstCheck(t)))
  {
    InvWait(c, s, t);
  }

  function WithNewLock<K(==)>(s: State<K>, k: K): State<K> {
    s.(buildLocks := s.buildLocks[k := s.nextLock], nextLock := s.nextLock + 1, madeFor := s.madeFor[s.nextLock := k])
  }

  /** A first check without a lock on offer makes one, then waits on it. */
  lemma FirstLockState<K(!new)>(c: Config<K>, s: State<K>, t: nat)
    requires Enabled(c, s, FirstCheck(t)) && Lookup(s.entries, s.threads[t].key).None?
    requires s.threads[t].key !in s.buildLocks
    ensures var n := WithNewLock(s, s.threads[t].key);
            Apply(c, s, FirstCheck(t)) == Become(n, t, Waiting(n.threads[t].key, n.buildLocks[n.threads[t].key]))
  {}

  lemma InvFirstLock<K(!new)>(c: Config<K>, s: State<K>, t: nat)
    requires Inv(c, s) && Enabled(c, s, FirstCheck(t)) && Lookup(s.entries, s.threads[t].key).None?
    requires s.threads[t].key !in s.buildLocks
    ensures Inv(c, Apply(c, s, FirstCheck(t)))
  {
    FirstLockState(c, s, t);
    InvNewLock(c, s, s.threads[t].key);
    InvWait(c, WithNewLock(s, s.threads[t].key), t);
  }

  lemma InvFirstCheck<K(!new)>(c: Config<K>, s: State<K>, t: nat)
    requires Inv(c, s) && Enabled(c, s, FirstCheck(t))
    ensures Inv(c, Apply(c, s, FirstCheck(t)))
  {
    if Lookup(s.entries, s.threads[t].key).Some? {
      InvFirstHit(c, s, t);
    } else if s.threads[t].key in s.buildLocks {
      InvFirstWait(c, s, t);
    } else {
      InvFirstLock(c, s, t);
    }
  }

  /** Only `OwnersOk` reads the lock owners. */
  lemma OnlyOwners<K(!new)>(c: Config<K>, s: State<K>, owner: map<nat, nat>)
    requires LocksOk(s) && KeysOk(c, s) && BuildsOk(s) && SuccessesOk(s) && ResultsOk(s)
    requires OwnersOk(s.(owner := owner))
    ensures Inv(c, s.(owner := owner))
  {
    var n := s.(owner := owner);
    forall e | e in n.succeeded ensures Lookup(n.entries, e.key).Some? || PendingBuild(n, e.key) {
      if PendingBuild(s, e.key) {
        var u :| 0 <= u < |s.threads| && s.threads[u].Built? && s.threads[u].key == e.key;
        assert n.threads[u].Built?;
      }
    }
  }

  /** Only `SuccessesOk` reads the success record. */
  lemma OnlySuccesses<K(!new)>(c: Config<K>, s: State<K>, nextFacade: nat, succeeded: seq<Entry<K, nat>>)
    requires LocksOk(s) && OwnersOk(s) && KeysOk(c, s) && BuildsOk(s) && ResultsOk(s)
    requires SuccessesOk(s.(nextFacade := nextFacade, succeeded := succeeded))
    ensures Inv(c, s.(nextFacade := nextFacade, succeeded := succeeded))
  {
  }

  lemma AcquireOwners<K(!new)>(c: Config<K>, s: State<K>, t: nat)
    requires OwnersOk(s) && Enabled(c, s, Acquire(t))
    ensures OwnersOk(Apply(c, s, Acquire(t)))
  {
  }

  lemma InvAcquire<K(!new)>(c: Config<K>, s: State<K>, t: nat)
    requires Inv(c, s) && Enabled(c, s, Acquire(t))
    ensures Inv(c, Apply(c, s, Acquire(t)))
  {
    var p := Holding(s.threads[t].key, s.threads[t].lock);
    LocksMove(s, t, p);
    SuccessesMove(s, t, p);
    KeysMove(c, s, t, p);
    BuildsMove(s, t, p);
    ResultsMove(s, t, p);
    AcquireOwners(c, s, t);
    OnlyOwners(c, Become(s, t, p), s.owner[p.lock := t]);
  }

  lemma InvLeaveHit<K(!new)>(c: Config<K>, s: State<K>, t: nat)
    requires Inv(c, s) && t < |s.threads| && s.threads[t].Holding? && Lookup(s.entries, s.threads[t].key).Some?
    ensures Inv(c, Become(s, t, Leaving(s.threads[t].key, s.threads[t].lock, Lookup(s.entries, s.threads[t].key))))
  {
    var p := Leaving(s.threads[t].key, s.threads[t].lock, Lookup(s.entries, s.threads[t].key));
    LocksMove(s, t, p);
    OwnersMove(s, t, p);
    SuccessesMove(s, t, p);
    KeysMove(c, s, t, p);
    BuildsMove(s, t, p);
    ResultsMove(s, t, p);
  }

  lemma InvStartBuild<K(!new)>(c: Config<K>, s: State<K>, t: nat)
    requires Inv(c, s) && t < |s.threads| && s.threads[t].Holding? && Lookup(s.entries, s.threads[t].key).None?
    ensures Inv(c, Become(s, t, Building(s.threads[t].key, s.threads[t].lock)))
  {
    var p := Building(s.threads[t].key, s.threads[t].lock);
    LocksMove(s, t, p);
    OwnersMove(s, t, p);
    SuccessesMove(s, t, p);
    KeysMove(c, s, t, p);
    BuildsMove(s, t, p);
    ResultsMove(s, t, p);
  }

  lemma InvRecheck<K(!new)>(c: Config<K>, s: State<K>, t: nat)
    requires Inv(c, s) && Enabled(c, s, Recheck(t))
    ensures Inv(c, Apply(c, s, Recheck(t)))
  {
    var p := s.threads[t];
    if Lookup(s.entries, p.key).Some? {
      InvLeaveHit(c, s, t);
      InvTouch(c, Become(s, t, Leaving(p.key, p.lock, Lookup(s.entries, p.key))), p.key);
    } else {
      InvStartBuild(c, s, t);
    }
  }

  /** A running builder's key has never been built. */
  lemma NoEarlierSuccess<K(!new)>(c: Config<K>, s: State<K>, t: nat)
    requires Inv(c, s) && t < |s.threads| && s.threads[t].Building?
    ensures forall e | e in s.succeeded :: e.key != s.threads[t].key
  {
    InvExcludes(c, s);
    forall e | e in s.succeeded ensures e.key != s.threads[t].key {
      if PendingBuild(s, e.key) {
        var u :| 0 <= u < |s.threads| && s.threads[u].Built? && s.threads[u].key == e.key;
        assert InBuild(s.threads[u]) && InBuild(s.threads[t]);
      }
    }
  }

  lemma AddedIsDistinct<K(!new)>(succeeded: seq<Entry<K, nat>>, added: Entry<K, nat>)
    requires DistinctKeys(succeeded) && forall e :: e in succeeded ==> e.key != added.key
    ensures DistinctKeys(succeeded + [added])
  {
    var all := succeeded + [added];
    forall i, j | 0 <= i < j < |all| ensures all[i].key != all[j].key {
      assert succeeded[i] in succeeded;
    }
  }

  lemma BuildSucceedsSuccesses<K(!new)>(c: Config<K>, s: State<K>, t: nat)
    requires Inv(c, s) && Enabled(c, s, BuildSucceeds(t))
    ensures SuccessesOk(Apply(c, s, BuildSucceeds(t)))
  {
    var n := Apply(c, s, BuildSucceeds(t));
    var added := Entry(s.threads[t].key, s.nextFacade);
    NoEarlierSuccess(c, s, t);
    AddedIsDistinct(s.succeeded, added);
    assert n.succeeded[|s.succeeded|] == added;
    assert forall e :: e in n.succeeded <==> e in s.succeeded || e == added;
    forall e | e in n.succeeded ensures Lookup(n.entries, e.key).Some? || PendingBuild(n, e.key) {
      if e == added {
        assert n.threads[t].Built? && n.threads[t].key == e.key;
      } else {
        PendingElsewhere(s, n, t, e.key);
      }
    }
  }

  lemma InvBuildSucceeds<K(!new)>(c: Config<K>, s: State<K>, t: nat)
    requires Inv(c, s) && Enabled(c, s, BuildSucceeds(t))
    ensures Inv(c, Apply(c, s, BuildSucceeds(t)))
  {
    var p := Built(s.threads[t].key, s.threads[t].lock, s.nextFacade);
    LocksMove(s, t, p);
    OwnersMove(s, t, p);
    KeysMove(c, s, t, p);
    BuildsMove(s, t, p);
    ResultsMove(s, t, p);
    BuildSucceedsSuccesses(c, s, t);
    OnlySuccesses(c, Become(s, t, p), s.nextFacade + 1, s.succeeded + [Entry(p.key, s.nextFacade)]);
  }

  lemma InvBuildFails<K(!new)>(c: Config<K>, s: State<K>, t: nat)
    requires Inv(c, s) && Enabled(c, s, BuildFails(t))
    ensures Inv(c, Apply(c, s, BuildFails(t)))
  {
    var p := Leaving(s.threads[t].key, s.threads[t].lock, None);
    LocksMove(s, t, p);
    OwnersMove(s, t, p);
    SuccessesMove(s, t, p);
    KeysMove(c, s, t, p);
    BuildsMove(s, t, p);
    ResultsMove(s, t, p);
  }

  ghost function Published<K(!new)>(c: Config<K>, s: State<K>, t: nat): State<K>
    requires t < |s.threads| && s.threads[t].Built?
  {
    var p := s.threads[t];
    Become(s, t, Leaving(p.key, p.lock, Some(p.facade))).(entries := Put(s.entries, p.key, p.facade, c.capacity))
  }

  lemma PublishLookup<K(!new)>(c: Config<K>, s: State<K>, t: nat)
    requires NothingLeaves(c) && Inv(c, s) && t < |s.threads| && s.threads[t].Built?
    ensures DistinctKeys(Published(c, s, t).entries)
    ensures forall x :: Lookup(Published(c, s, t).entries, x) ==
                        if x == s.threads[t].key then Some(s.threads[t].facade) else Lookup(s.entries, x)
  {
    var p := s.threads[t];
    KeysFit(c, s);
    PutKeeps(s.entries, p.key, p.facade, c.capacity);
  }

  lemma PublishBuilds<K(!new)>(c: Config<K>, s: State<K>, t: nat)
    requires NothingLeaves(c) && Inv(c, s) && t < |s.threads| && s.threads[t].Built?
    ensures BuildsOk(Published(c, s, t))
  {
    InvExcludes(c, s);
    PublishLookup(c, s, t);
  }

  lemma PublishSuccesses<K(!new)>(c: Config<K>, s: State<K>, t: nat)
    requires NothingLeaves(c) && Inv(c, s) && t < |s.threads| && s.threads[t].Built?
    ensures SuccessesOk(Published(c, s, t))
  {
    var n := Published(c, s, t);
    PublishLookup(c, s, t);
    forall e | e in n.succeeded ensures Lookup(n.entries, e.key).Some? || PendingBuild(n, e.key) {
      if e.key != s.threads[t].key { PendingElsewhere(s, n, t, e.key); }
    }
  }

  lemma PublishResults<K(!new)>(c: Config<K>, s: State<K>, t: nat)
    requires NothingLeaves(c) && Inv(c, s) && t < |s.threads| && s.threads[t].Built?
    ensures ResultsOk(Published(c, s, t)) && KeysOk(c, Published(c, s, t))
  {
    PublishLookup(c, s, t);
    assert Lookup(s.entries, s.threads[t].key).None?;
  }

  /** Publishing an uncached key with room to spare. */
  lemma InvPut<K(!new)>(c: Config<K>, s: State<K>, t: nat)
    requires NothingLeaves(c) && Inv(c, s) && t < |s.threads| && s.threads[t].Built?
    ensures Inv(c, Published(c, s, t))
    ensures Lookup(Published(c, s, t).entries, s.threads[t].key).Some?
  {
    var p := s.threads[t];
    LocksMove(s, t, Leaving(p.key, p.lock, Some(p.facade)));
    OwnersMove(s, t, Leaving(p.key, p.lock, Some(p.facade)));
    PublishBuilds(c, s, t);
    PublishSuccesses(c, s, t);
    PublishResults(c, s, t);
    PublishLookup(c, s, t);
  }

  /** The lock of a cached key may be forgotten. */
  lemma InvDropLock<K(!new)>(c: Config<K>, s: State<K>, k: K)
    requires Inv(c, s) && Lookup(s.entries, k).Some?
    ensures Inv(c, s.(buildLocks := s.buildLocks - {k}))
  {
    var n := s.(buildLocks := s.buildLocks - {k});
    forall e | e in n.succeeded ensures Lookup(n.entries, e.key).Some? || PendingBuild(n, e.key) {
      if PendingBuild(s, e.key) {
        var u :| 0 <= u < |s.threads| && s.threads[u].Built? && s.threads[u].key == e.key;
        assert n.threads[u].Built?;
      }
    }
  }

  lemma InvPublish<K(!new)>(c: Config<K>, s: State<K>, t: nat)
    requires NothingLeaves(c) && Inv(c, s) && Enabled(c, s, Publish(t))
    ensures Inv(c, Apply(c, s, Publish(t)))
  {
    var p := s.threads[t];
    InvPut(c, s, t);
    InvDropLock(c, Published(c, s, t), p.key);
  }

  lemma ReleaseOwners<K(!new)>(c: Config<K>, s: State<K>, t: nat)
    requires OwnersOk(s) && Enabled(c, s, Release(t))
    ensures OwnersOk(Apply(c, s, Release(t)))
  {
    var n := Apply(c, s, Release(t));
    forall u | 0 <= u < |n.threads| && OwnsLock(n.threads[u])
      ensures n.threads[u].lock in n.owner && n.owner[n.threads[u].lock] == u
    {
      assert u != t && n.threads[u] == s.threads[u];
      assert s.owner[s.threads[u].lock] == u;
    }
  }

  lemma InvRelease<K(!new)>(c: Config<K>, s: State<K>, t: nat)
    requires Inv(c, s) && Enabled(c, s, Release(t))
    ensures Inv(c, Apply(c, s, Release(t)))
  {
    var q := s.threads[t];
    var p := if q.result.Some? then Returned(q.key, q.result.value) else Raised(q.key);
    LocksMove(s, t, p);
    SuccessesMove(s, t, p);
    KeysMove(c, s, t, p);
    BuildsMove(s, t, p);
    ResultsMove(s, t, p);
    ReleaseOwners(c, s, t);
    OnlyOwners(c, Become(s, t, p), s.owner - {q.lock});
  }

  lemma InvStep<K(!new)>(c: Config<K>, s: State<K>, step: Step<K>)
    requires NothingLeaves(c) && Inv(c, s) && Enabled(c, s, step)
    ensures Inv(c, Apply(c, s, step))
  {
    match step {
      case Call(t, k) => InvCall(c, s, t, k);
      case FirstCheck(t) => InvFirstCheck(c, s, t);
      case Acquire(t) => InvAcquire(c, s, t);
      case Recheck(t) => InvRecheck(c, s, t);
      case BuildSucceeds(t) => InvBuildSucceeds(c, s, t);
      case BuildFails(t) => InvBuildFails(c, s, t);
      case Publish(t) => InvPublish(c, s, t);
      case Release(t) => InvRelease(c, s, t);
      case Clear =>
    }
  }

  lemma {:induction false} InvRun<K(!new)>(c: Config<K>, s: State<K>, steps: seq<Step<K>>)
    requires NothingLeaves(c) && Inv(c, s) && Exec(c, s, steps).Some?
    ensures Inv(c, Exec(c, s, steps).value)
    decreases |steps|
  {
    if steps != [] {
      InvStep(c, s, steps[0]);
      InvRun(c, Apply(c, s, steps[0]), steps[1..]);
    }
  }

  /** While the keys fit and nobody clears, in every interleaving and whatever builds
      fail: one builder per key at a time, one success per key ever, and one facade
      for everyone who asked. */
  lemma NothingLeavesThenBuiltOnce<K(!new)>(c: Config<K>, s: State<K>)
    requires NothingLeaves(c) && Reachable(c, s)
    ensures OneBuilderPerKey(s) && OneSuccessPerKey(s) && SameFacadeForAll(s)
  {
    var steps :| Exec(c, Init(c), steps) == Some(s);
    InvInit(c);
    InvRun(c, Init(c), steps);
    InvServesOneFacade(c, s);
  }

  // -------------------------------------------- and only while nothing is evicted

  lemma {:induction false} ExecAppend<K(!new)>(c: Config<K>, s: State<K>, steps: seq<Step<K>>, more: seq<Step<K>>)
    requires Exec(c, s, steps).Some?
    ensures Exec(c, s, steps + more) == Exec(c, Exec(c, s, steps).value, more)
    decreases |steps|
  {
    if steps == [] {
      assert steps + more == more;
    } else {
      assert (steps + more)[1..] == steps[1..] + more;
      ExecAppend(c, Apply(c, s, steps[0]), steps[1..], more);
    }
  }

  lemma ReachableStep<K(!new)>(c: Config<K>, s: State<K>, step: Step<K>)
    requires Reachable(c, s) && Enabled(c, s, step)
    ensures Reachable(c, Apply(c, s, step))
  {
    var steps :| Exec(c, Init(c), steps) == Some(s);
    ExecAppend(c, Init(c), steps, [step]);
    assert Exec(c, s, [step]) == Exec(c, Apply(c, s, step), []);
  }

  lemma ReachableInit<K(!new)>(c: Config<K>)
    ensures Reachable(c, Init(c))
  {
    assert Exec(c, Init(c), []) == Some(Init(c));
  }

  predicate Free<K>(p: Phase<K>) {
    p.Idle? || p.Returned? || p.Raised?
  }

  /** Thread 1 waits on an old lock `l` for `k` while thread 0 is free to work and no
      lock is held. */
  ghost predicate Parked<K(!new)>(c: Config<K>, s: State<K>, k: K, l: nat) {
    && Reachable(c, s) && |s.threads| >= 2
    && s.threads[1] == Waiting(k, l) && Free(s.threads[0])
    && s.owner == map[] && l < s.nextLock
  }

  /** A free thread enters a call for an uncached key and waits for its lock. */
  lemma EnterCall<K(!new)>(c: Config<K>, s: State<K>, t: nat, k: K) returns (n: State<K>, lock: nat)
    requires Reachable(c, s) && t < |s.threads| && Free(s.threads[t]) && k in c.keys
    requires Lookup(s.entries, k).None?
    ensures Reachable(c, n) && lock == if k in s.buildLocks then s.buildLocks[k] else s.nextLock
    ensures n.threads == s.threads[t := Waiting(k, lock)] && n.entries == s.entries && n.succeeded == s.succeeded
    ensures n.owner == s.owner && n.nextLock >= s.nextLock && n.buildLocks == s.buildLocks[k := lock]
  {
    ReachableStep(c, s, Call(t, k));
    var called := Apply(c, s, Call(t, k));
    ReachableStep(c, called, FirstCheck(t));
    n := Apply(c, called, FirstCheck(t));
    lock := if k in s.buildLocks then s.buildLocks[k] else s.nextLock;
    assert n.threads == s.threads[t := Waiting(k, lock)];
    if k in s.buildLocks {
      assert s.buildLocks[k := lock] == s.buildLocks;
    }
  }

  /** A waiting thread takes its lock, finds its key uncached and becomes its builder. */
  lemma TakeLock<K(!new)>(c: Config<K>, s: State<K>, t: nat, k: K, lock: nat) returns (n: State<K>)
    requires Reachable(c, s) && t < |s.threads| && s.threads[t] == Waiting(k, lock)
    requires Lookup(s.entries, k).None? && lock !in s.owner
    ensures Reachable(c, n)
    ensures n == s.(threads := s.threads[t := Building(k, lock)], owner := s.owner[lock := t])
  {
    ReachableStep(c, s, Acquire(t));
    var held := Apply(c, s, Acquire(t));
    ReachableStep(c, held, Recheck(t));
    n := Apply(c, held, Recheck(t));
    assert n.threads == s.threads[t := Building(k, lock)];
  }

  /** A free thread enters a call for an uncached key and becomes its builder. */
  lemma StartBuilding<K(!new)>(c: Config<K>, s: State<K>, t: nat, k: K) returns (n: State<K>, lock: nat)
    requires Reachable(c, s) && t < |s.threads| && Free(s.threads[t]) && k in c.keys
    requires Lookup(s.entries, k).None?
    requires (if k in s.buildLocks then s.buildLocks[k] else s.nextLock) !in s.owner
    ensures Reachable(c, n)
    ensures lock == if k in s.buildLocks then s.buildLocks[k] else s.nextLock
    ensures n.threads == s.threads[t := Building(k, lock)] && n.entries == s.entries && n.succeeded == s.succeeded
    ensures n.owner == s.owner[lock := t] && n.nextLock >= s.nextLock
    ensures n.buildLocks == s.buildLocks[k := lock]
  {
    var waiting;
    waiting, lock := EnterCall(c, s, t, k);
    n := TakeLock(c, waiting, t, k, lock);
    assert n.threads == s.threads[t := Building(k, lock)];
  }

  /** Thread 0 finishes its build and returns. */
  lemma FinishBuilding<K(!new)>(c: Config<K>, s: State<K>, t: nat) returns (n: State<K>)
    requires Reachable(c, s) && t < |s.threads| && s.threads[t].Building?
    ensures Reachable(c, n)
    ensures var p := s.threads[t];
            && n.threads == s.threads[t := Returned(p.key, s.nextFacade)]
            && n.entries == Put(s.entries, p.key, s.nextFacade, c.capacity)
            && n.owner == s.owner - {p.lock} && n.nextLock == s.nextLock && n.nextFacade == s.nextFacade + 1
            && n.buildLocks == if p.key in s.buildLocks && s.buildLocks[p.key] == p.lock then s.buildLocks - {p.key}
                else s.buildLocks
  {
    ReachableStep(c, s, BuildSucceeds(t));
    var s1 := Apply(c, s, BuildSucceeds(t));
    ReachableStep(c, s1, Publish(t));
    var s2 := Apply(c, s1, Publish(t));
    ReachableStep(c, s2, Release(t));
    n := Apply(c, s2, Release(t));
    assert n.threads == s.threads[t := Returned(s.threads[t].key, s.nextFacade)];
  }

  /** Thread 0 builds and publishes a key while thread 1 stays parked. */
  lemma BuildBeside<K(!new)>(c: Config<K>, s: State<K>, k: K, first: K, l: nat) returns (n: State<K>, f: nat)
    requires Parked(c, s, first, l) && k in c.keys && Lookup(s.entries, k).None?
    requires s.buildLocks.Keys <= {k}
    ensures Parked(c, n, first, l) && n.buildLocks == map[]
    ensures n.entries == Put(s.entries, k, f, c.capacity)
  {
    var mid, lock := StartBuilding(c, s, 0, k);
    f := mid.nextFacade;
    n := FinishBuilding(c, mid, 0);
    assert n.owner == map[];
    assert n.buildLocks.Keys == {};
  }

  lemma LastNTwice<T>(h: seq<T>, e: T, n: nat)
    ensures LastN(LastN(h, n) + [e], n) == LastN(h + [e], n)
  {
  }

  /** With the cache holding the last `capacity` of a history of distinct keys, more
      fresh keys push the first one out. */
  lemma {:induction false} PushOut<K(!new)>(c: Config<K>, s: State<K>, first: K, l: nat, h: seq<Entry<K, nat>>,
                                            todo: set<K>) returns (n: State<K>)
    requires Parked(c, s, first, l) && s.buildLocks == map[] && c.capacity >= 1
    requires DistinctKeys(h) && h != [] && h[0].key == first && s.entries == LastN(h, c.capacity)
    requires todo <= c.keys && (forall i :: 0 <= i < |h| ==> h[i].key !in todo)
    requires |h| + |todo| > c.capacity
    ensures Parked(c, n, first, l) && n.buildLocks == map[] && Lookup(n.entries, first).None?
    decreases |todo|
  {
    LookupHas(s.entries, first);
    if |h| > c.capacity {
      n := s;
      forall i | 0 <= i < |s.entries| ensures s.entries[i].key != first {
        assert s.entries[i] == h[|h| - c.capacity + i];
      }
    } else {
      assert todo != {};
      var k :| k in todo;
      LookupHas(s.entries, k);
      var mid, f := BuildBeside(c, s, k, first, l);
      LastNTwice(h, Entry(k, f), c.capacity);
      n := PushOut(c, mid, first, l, h + [Entry(k, f)], todo - {k});
    }
  }

  /** Some reachable state has two threads building one uncached key. */
  ghost predicate Clash<K(!new)>(c: Config<K>, s: State<K>, k: K) {
    Reachable(c, s) && |s.threads| >= 2 && s.threads[0].Building? && s.threads[1].Building?
      && s.threads[0].key == k && s.threads[1].key == k
      && Lookup(s.entries, k).None? && s.buildLocks.Keys <= {k}
  }

  /** More keys than capacity: an old waiter and a newcomer hold different locks. */
  lemma EvictionClash<K(!new)>(c: Config<K>) returns (n: State<K>, k: K)
    requires c.threads >= 2 && c.capacity >= 1 && |c.keys| > c.capacity
    ensures Clash(c, n, k)
  {
    k :| k in c.keys;
    ReachableInit(c);
    var s0 := Init(c);
    ReachableStep(c, s0, Call(1, k));
    var s1 := Apply(c, s0, Call(1, k));
    ReachableStep(c, s1, FirstCheck(1));
    var s2 := Apply(c, s1, FirstCheck(1));
    assert Parked(c, s2, k, 0) && s2.buildLocks.Keys == {k};
    var s3, f := BuildBeside(c, s2, k, k, 0);
    assert s3.entries == [Entry(k, f)];
    var s4 := PushOut(c, s3, k, 0, [Entry(k, f)], c.keys - {k});
    var s5, lock := StartBuilding(c, s4, 0, k);
    ReachableStep(c, s5, Acquire(1));
    var s6 := Apply(c, s5, Acquire(1));
    ReachableStep(c, s6, Recheck(1));
    n := Apply(c, s6, Recheck(1));
  }

  /** A clear during a build lets a newcomer build the same key on a new lock. */
  lemma ClearClash<K(!new)>(c: Config<K>) returns (n: State<K>, k: K)
    requires c.threads >= 2 && c.keys != {} && c.clears
    ensures Clash(c, n, k)
  {
    k :| k in c.keys;
    ReachableInit(c);
    var s1, lock := StartBuilding(c, Init(c), 0, k);
    ReachableStep(c, s1, Clear);
    var s2 := Apply(c, s1, Clear);
    FreshLock(c, s2);
    var s3, other := StartBuilding(c, s2, 1, k);
    n := s3;
  }

  lemma FreshLockFirstCheck<K(!new)>(c: Config<K>, s: State<K>, t: nat)
    requires LocksBelow(s) && Enabled(c, s, FirstCheck(t))
    ensures LocksBelow(Apply(c, s, FirstCheck(t)))
  {}

  /** A step that hands out no lock. */
  lemma FreshLockMove<K(!new)>(s: State<K>, n: State<K>, t: nat)
    requires LocksBelow(s) && t < |s.threads| == |n.threads| && n.nextLock == s.nextLock
    requires forall u :: 0 <= u < |n.threads| && u != t ==> n.threads[u] == s.threads[u]
    requires UsesLock(n.threads[t]) ==> UsesLock(s.threads[t]) && n.threads[t].lock == s.threads[t].lock
    requires forall l :: l in n.owner ==> l in s.owner || (UsesLock(s.threads[t]) && l == s.threads[t].lock)
    requires forall k :: k in n.buildLocks ==> k in s.buildLocks && n.buildLocks[k] == s.buildLocks[k]
    ensures LocksBelow(n)
  {}

  lemma FreshLockStep<K(!new)>(c: Config<K>, s: State<K>, step: Step<K>)
    requires LocksBelow(s) && Enabled(c, s, step)
    ensures LocksBelow(Apply(c, s, step))
  {
    if step.FirstCheck? {
      FreshLockFirstCheck(c, s, step.t);
    } else if !step.Clear? {
      FreshLockMove(s, Apply(c, s, step), step.t);
    }
  }

  lemma {:induction false} FreshLockRun<K(!new)>(c: Config<K>, s: State<K>, steps: seq<Step<K>>)
    requires Exec(c, s, steps).Some? && LocksBelow(s)
    ensures LocksBelow(Exec(c, s, steps).value)
    decreases |steps|
  {
    if steps != [] {
      FreshLockStep(c, s, steps[0]);
      FreshLockRun(c, Apply(c, s, steps[0]), steps[1..]);
    }
  }

  ghost predicate LocksBelow<K>(s: State<K>) {
    && (forall l | l in s.owner :: l < s.nextLock)
    && (forall k | k in s.buildLocks :: s.buildLocks[k] < s.nextLock)
    && (forall t | 0 <= t < |s.threads| && UsesLock(s.threads[t]) :: s.threads[t].lock < s.nextLock)
  }

  lemma FreshLock<K(!new)>(c: Config<K>, s: State<K>)
    requires Reachable(c, s)
    ensures LocksBelow(s)
  {
    var steps :| Exec(c, Init(c), steps) == Some(s);
    FreshLockRun(c, Init(c), steps);
  }

  /** Two builders of one key can both succeed. */
  lemma ClashSucceedsTwice<K(!new)>(c: Config<K>, s: State<K>, k: K) returns (n: State<K>)
    requires Clash(c, s, k)
    ensures Reachable(c, n) && !OneSuccessPerKey(n)
  {
    ReachableStep(c, s, BuildSucceeds(0));
    var s1 := Apply(c, s, BuildSucceeds(0));
    ReachableStep(c, s1, BuildSucceeds(1));
    n := Apply(c, s1, BuildSucceeds(1));
    assert n.succeeded[|s.succeeded|].key == k && n.succeeded[|s.succeeded| + 1].key == k;
  }

  lemma SomeClash<K(!new)>(c: Config<K>) returns (s: State<K>, k: K)
    requires c.threads >= 2 && c.capacity >= 1 && c.keys != {} && !NothingLeaves(c)
    ensures Clash(c, s, k)
  {
    if c.clears {
      s, k := ClearClash(c);
    } else {
      s, k := EvictionClash(c);
    }
  }

  /** Two callers of one key can be given different facades. */
  lemma ClashServesTwo<K(!new)>(c: Config<K>, s: State<K>, k: K) returns (n: State<K>)
    requires Clash(c, s, k)
    ensures Reachable(c, n) && !SameFacadeForAll(n)
  {
    var mid := FinishBuilding(c, s, 0);
    n := FinishBuilding(c, mid, 1);
    assert n.threads[0] == Returned(k, s.nextFacade) && n.threads[1] == Returned(k, mid.nextFacade);
  }

  /** "A key is constructed at most once" holds in every interleaving exactly when
      the keys in use fit the capacity and nobody clears the cache; so does "a hit
      returns the identical facade", for all callers of one key. */
  lemma BuiltOnceIffNothingLeaves<K(!new)>(c: Config<K>)
    requires c.threads >= 2 && c.capacity >= 1 && c.keys != {}
    ensures (forall s :: Reachable(c, s) ==> OneBuilderPerKey(s)) <==> NothingLeaves(c)
    ensures (forall s :: Reachable(c, s) ==> OneSuccessPerKey(s)) <==> NothingLeaves(c)
    ensures (forall s :: Reachable(c, s) ==> SameFacadeForAll(s)) <==> NothingLeaves(c)
  {
    if NothingLeaves(c) {
      forall s | Reachable(c, s) ensures OneBuilderPerKey(s) && OneSuccessPerKey(s) && SameFacadeForAll(s) {
        NothingLeavesThenBuiltOnce(c, s);
      }
    } else {
      var s, k := SomeClash(c);
      assert InBuild(s.threads[0]) && InBuild(s.threads[1]);
      assert Reachable(c, s) && !OneBuilderPerKey(s);
      var n := ClashSucceedsTwice(c, s, k);
      var m := ClashServesTwo(c, s, k);
    }
  }
}
