/** Recency of the facade cache under threads: when the keys are in last-access order in
    every interleaving (edgar_sec/apps/client/facade.py:78-105). */
module FacadeRecency {
  import opened Common
  import opened FacadeCache
  import opened FacadeThreads

  /** The access history after a step: a hit and a publication append their key, a clear
      forgets everything. */
  ghost function Recorded<K>(c: Config<K>, s: State<K>, h: seq<K>, step: Step<K>): seq<K>
    requires Enabled(c, s, step)
  {
    match step
    case FirstCheck(t) => if Lookup(s.entries, s.threads[t].key).Some? then h + [s.threads[t].key] else h
    case Recheck(t) => if Lookup(s.entries, s.threads[t].key).Some? then h + [s.threads[t].key] else h
    case Publish(t) => h + [s.threads[t].key]
    case Clear => []
    case _ => h
  }

  ghost function History<K>(c: Config<K>, s: State<K>, h: seq<K>, steps: seq<Step<K>>): seq<K>
    requires Exec(c, s, steps).Some?
    decreases |steps|
  {
    if steps == [] then h else History(c, Apply(c, s, steps[0]), Recorded(c, s, h, steps[0]), steps[1..])
  }

  /** Some schedule leads to `s` and records `h`. */
  ghost predicate ReachableWith<K(!new)>(c: Config<K>, s: State<K>, h: seq<K>) {
    exists steps :: Exec(c, Init(c), steps) == Some(s) && History(c, Init(c), [], steps) == h
  }

  lemma ReachableHasHistory<K(!new)>(c: Config<K>, s: State<K>) returns (h: seq<K>)
    requires Reachable(c, s)
    ensures ReachableWith(c, s, h)
  {
    var steps :| Exec(c, Init(c), steps) == Some(s);
    h := History(c, Init(c), [], steps);
  }

  lemma {:induction false} HistoryAppend<K(!new)>(c: Config<K>, s: State<K>, h: seq<K>, steps: seq<Step<K>>,
                                                  step: Step<K>)
    requires Exec(c, s, steps).Some? && Enabled(c, Exec(c, s, steps).value, step)
    ensures Exec(c, s, steps + [step]) == Some(Apply(c, Exec(c, s, steps).value, step))
    ensures History(c, s, h, steps + [step]) == Recorded(c, Exec(c, s, steps).value, History(c, s, h, steps), step)
    decreases |steps|
  {
    if steps == [] {
      assert steps + [step] == [step];
      assert Exec(c, s, [step]) == Exec(c, Apply(c, s, step), []);
      assert [step][1..] == [];
    } else {
      assert (steps + [step])[1..] == steps[1..] + [step];
      HistoryAppend(c, Apply(c, s, steps[0]), Recorded(c, s, h, steps[0]), steps[1..], step);
    }
  }

  lemma ReachableWithStep<K(!new)>(c: Config<K>, s: State<K>, h: seq<K>, step: Step<K>)
    requires ReachableWith(c, s, h) && Enabled(c, s, step)
    ensures ReachableWith(c, Apply(c, s, step), Recorded(c, s, h, step))
  {
    var steps :| Exec(c, Init(c), steps) == Some(s) && History(c, Init(c), [], steps) == h;
    HistoryAppend(c, Init(c), [], steps, step);
  }

  // ---------------------------------------------------------- steps that keep order

  ghost predicate InOrder<K(!new)>(c: Config<K>, s: State<K>, h: seq<K>) {
    IsLru(KeysOf(s.entries), h, c.capacity)
  }

  /** A publication does not overwrite an entry that others were used after. */
  predicate OverwritesLatestOnly<K(==)>(s: State<K>, step: Step<K>) {
    step.Publish? && step.t < |s.threads| && s.threads[step.t].Built? ==>
      match IndexOf(s.entries, s.threads[step.t].key)
      case None => true
      case Some(i) => i + 1 == |s.entries|
  }

  lemma TouchInOrder<K(!new)>(entries: seq<Entry<K, nat>>, h: seq<K>, capacity: nat, k: K)
    requires IsLru(KeysOf(entries), h, capacity) && Lookup(entries, k).Some?
    ensures IsLru(KeysOf(Touch(entries, k)), h + [k], capacity)
  {
    var i := IndexOf(entries, k).value;
    assert KeysOf(entries)[i] == k;
    HitOrder(entries, i);
    HitKeepsLru(KeysOf(entries), h, capacity, i);
  }

  lemma PutInOrder<K(!new)>(entries: seq<Entry<K, nat>>, h: seq<K>, capacity: nat, k: K, facade: nat)
    requires IsLru(KeysOf(entries), h, capacity) && capacity >= 1
    requires match IndexOf(entries, k) case None => true case Some(i) => i + 1 == |entries|
    ensures IsLru(KeysOf(Put(entries, k, facade, capacity)), h + [k], capacity)
  {
    match IndexOf(entries, k) {
      case None =>
        MissOrder(entries, Entry(k, facade), capacity);
        MissKeepsLru(KeysOf(entries), h, capacity, k);
      case Some(i) =>
        OverwriteKeepsKeys(entries, i, facade);
        LruBounded(KeysOf(entries), h, capacity);
        HitKeepsLru(KeysOf(entries), h, capacity, i);
        assert WithoutAt(KeysOf(entries), i) + [KeysOf(entries)[i]] == KeysOf(entries);
    }
  }

  lemma OverwriteKeepsKeys<K>(entries: seq<Entry<K, nat>>, i: nat, facade: nat)
    requires i < |entries|
    ensures KeysOf(entries[i := Entry(entries[i].key, facade)]) == KeysOf(entries)
  {}

  lemma EmptyInOrder<K(!new)>(capacity: nat)
    ensures IsLru<K>([], [], capacity)
  {}

  lemma StepInOrder<K(!new)>(c: Config<K>, s: State<K>, h: seq<K>, step: Step<K>)
    requires c.capacity >= 1 && InOrder(c, s, h) && Enabled(c, s, step) && OverwritesLatestOnly(s, step)
    ensures InOrder(c, Apply(c, s, step), Recorded(c, s, h, step))
  {
    match step {
      case FirstCheck(t) =>
        if Lookup(s.entries, s.threads[t].key).Some? { TouchInOrder(s.entries, h, c.capacity, s.threads[t].key); }
      case Recheck(t) =>
        if Lookup(s.entries, s.threads[t].key).Some? { TouchInOrder(s.entries, h, c.capacity, s.threads[t].key); }
      case Publish(t) =>
        PutInOrder(s.entries, h, c.capacity, s.threads[t].key, s.threads[t].facade);
      case Clear =>
        EmptyInOrder<K>(c.capacity);
      case _ =>
    }
  }

  // --------------------------------------------------- where order is never broken

  /** Nothing leaves, or the cache never holds two keys. */
  predicate KeepsOrder<K>(c: Config<K>) {
    NothingLeaves(c) || c.capacity == 1 || |c.keys| <= 1
  }

  lemma OneEntryAtMost<K(!new)>(c: Config<K>, s: State<K>)
    requires Bounded(c, s) && |c.keys| <= 1
    ensures |s.entries| <= 1
  {
    if |s.entries| >= 2 {
      var a, b := s.entries[0].key, s.entries[1].key;
      assert s.entries[0] in s.entries && s.entries[1] in s.entries;
      SubsetSize({a, b}, c.keys);
    }
  }

  lemma LatestOnly<K(!new)>(c: Config<K>, s: State<K>, step: Step<K>)
    requires KeepsOrder(c) && Bounded(c, s) && (NothingLeaves(c) ==> Inv(c, s))
    ensures OverwritesLatestOnly(s, step)
  {
    if step.Publish? && step.t < |s.threads| && s.threads[step.t].Built? {
      if NothingLeaves(c) {
        assert InBuild(s.threads[step.t]);
        assert Lookup(s.entries, s.threads[step.t].key).None?;
      } else if c.capacity != 1 {
        OneEntryAtMost(c, s);
      }
    }
  }

  lemma {:induction false} RunInOrder<K(!new)>(c: Config<K>, s: State<K>, h: seq<K>, steps: seq<Step<K>>)
    requires c.capacity >= 1 && KeepsOrder(c) && Bounded(c, s) && (NothingLeaves(c) ==> Inv(c, s))
    requires InOrder(c, s, h) && Exec(c, s, steps).Some?
    ensures InOrder(c, Exec(c, s, steps).value, History(c, s, h, steps))
    decreases |steps|
  {
    if steps != [] {
      LatestOnly(c, s, steps[0]);
      StepInOrder(c, s, h, steps[0]);
      StepKeepsBound(c, s, steps[0]);
      if NothingLeaves(c) { InvStep(c, s, steps[0]); }
      RunInOrder(c, Apply(c, s, steps[0]), Recorded(c, s, h, steps[0]), steps[1..]);
    }
  }

  lemma KeptInOrder<K(!new)>(c: Config<K>, s: State<K>, h: seq<K>)
    requires c.capacity >= 1 && KeepsOrder(c) && ReachableWith(c, s, h)
    ensures InOrder(c, s, h)
  {
    var steps :| Exec(c, Init(c), steps) == Some(s) && History(c, Init(c), [], steps) == h;
    InvInit(c);
    EmptyInOrder<K>(c.capacity);
    assert KeysOf(Init(c).entries) == [];
    RunInOrder(c, Init(c), [], steps);
  }

  // ------------------------------------------------------ where it can be broken

  /** A facade published over an older entry keeps that entry's place. */
  lemma OverwriteBreaksOrder<K(!new)>(c: Config<K>, s: State<K>, t: nat, i: nat)
    returns (n: State<K>, h: seq<K>)
    requires Reachable(c, s) && t < |s.threads| && s.threads[t].Built?
    requires IndexOf(s.entries, s.threads[t].key) == Some(i) && i + 1 < |s.entries|
    ensures ReachableWith(c, n, h) && !InOrder(c, n, h)
  {
    var k := s.threads[t].key;
    var before := ReachableHasHistory(c, s);
    ReachableIsBounded(c, s);
    ReachableWithStep(c, s, before, Publish(t));
    n, h := Apply(c, s, Publish(t)), Recorded(c, s, before, Publish(t));
    OverwriteKeepsKeys(s.entries, i, s.threads[t].facade);
    assert KeysOf(n.entries) == KeysOf(s.entries) && KeysOf(n.entries)[i] == k;
    LatestBehind(KeysOf(n.entries), before, c.capacity, i);
  }

  /** The latest key may stand only at the end. */
  lemma LatestBehind<K(!new)>(keys: seq<K>, h: seq<K>, capacity: nat, i: nat)
    requires i + 1 < |keys|
    ensures !IsLru(keys, h + [keys[i]], capacity)
  {
    var all := h + [keys[i]];
    assert all[|h|] == keys[i];
    assert keys[i + 1] in all ==> LastAccess(all, keys[i + 1]) <= LastAccess(all, keys[i]);
  }

  /** Two published keys in a row, the second after the first. */
  ghost predicate Trails<K>(s: State<K>, k: K) {
    match IndexOf(s.entries, k) case None => false case Some(i) => i + 1 < |s.entries|
  }

  lemma TrailsBy<K(!new)>(s: State<K>, k: K, i: nat)
    requires DistinctKeys(s.entries) && i + 1 < |s.entries| && s.entries[i].key == k
    ensures Trails(s, k)
  {
    assert KeysOf(s.entries)[i] == k;
  }

  /** A clash, then an access to another key: the second publication overwrites an entry
      that is no longer the latest. */
  lemma ClashBreaksOrder<K(!new)>(c: Config<K>, s: State<K>, k: K, other: K) returns (n: State<K>, h: seq<K>)
    requires Clash(c, s, k) && c.capacity >= 2 && other in c.keys && other != k
    ensures ReachableWith(c, n, h) && !InOrder(c, n, h)
  {
    var mid := FinishBuilding(c, s, 0);
    PublishedLast(s.entries, k, s.nextFacade, c.capacity);
    var after := UseOther(c, mid, k, other);
    ReachableStep(c, after, BuildSucceeds(1));
    var built := Apply(c, after, BuildSucceeds(1));
    assert Trails(built, k);
    n, h := OverwriteBreaksOrder(c, built, 1, IndexOf(built.entries, k).value);
  }

  lemma PublishedLast<K(!new)>(entries: seq<Entry<K, nat>>, k: K, facade: nat, capacity: nat)
    requires Lookup(entries, k).None? && capacity >= 1
    ensures var e := Put(entries, k, facade, capacity); e != [] && e[|e| - 1] == Entry(k, facade)
  {}

  /** Thread 0 is free, `k` was published last, and thread 1 still builds it. */
  ghost predicate StillBuilding<K(!new)>(c: Config<K>, s: State<K>, k: K) {
    && Reachable(c, s) && |s.threads| >= 2 && Free(s.threads[0])
    && s.threads[1].Building? && s.threads[1].key == k
    && s.buildLocks.Keys <= {k} && s.entries != [] && s.entries[|s.entries| - 1].key == k
  }

  lemma UseCached<K(!new)>(c: Config<K>, s: State<K>, k: K, other: K) returns (n: State<K>)
    requires StillBuilding(c, s, k) && other in c.keys && other != k && Lookup(s.entries, other).Some?
    ensures Reachable(c, n) && |n.threads| >= 2 && n.threads[1] == s.threads[1] && n.entries == Touch(s.entries, other)
  {
    ReachableStep(c, s, Call(0, other));
    var called := Apply(c, s, Call(0, other));
    ReachableStep(c, called, FirstCheck(0));
    n := Apply(c, called, FirstCheck(0));
  }

  lemma UseUncached<K(!new)>(c: Config<K>, s: State<K>, k: K, other: K) returns (n: State<K>, facade: nat)
    requires StillBuilding(c, s, k) && other in c.keys && other != k && Lookup(s.entries, other).None?
    ensures Reachable(c, n) && |n.threads| >= 2 && n.threads[1] == s.threads[1]
    ensures n.entries == Put(s.entries, other, facade, c.capacity)
  {
    FreshLock(c, s);
    var building, lock := StartBuilding(c, s, 0, other);
    facade := building.nextFacade;
    n := FinishBuilding(c, building, 0);
  }

  /** Thread 0 uses another key while thread 1 still builds `k`. */
  lemma UseOther<K(!new)>(c: Config<K>, s: State<K>, k: K, other: K) returns (n: State<K>)
    requires StillBuilding(c, s, k) && c.capacity >= 2 && other in c.keys && other != k
    ensures Reachable(c, n) && |n.threads| >= 2 && n.threads[1] == s.threads[1] && Trails(n, k)
  {
    if Lookup(s.entries, other).Some? {
      n := UseCached(c, s, k, other);
      TouchedBehind(s.entries, other);
    } else {
      var facade;
      n, facade := UseUncached(c, s, k, other);
      PutBehind(s.entries, other, facade, c.capacity);
    }
    ReachableIsBounded(c, n);
    TrailsBy(n, k, |n.entries| - 2);
  }

  lemma TouchedBehind<K(!new)>(entries: seq<Entry<K, nat>>, other: K)
    requires entries != [] && entries[|entries| - 1].key != other && Lookup(entries, other).Some?
    ensures var e := Touch(entries, other);
            |e| == |entries| && |e| >= 2 && e[|e| - 2] == entries[|entries| - 1]
  {}

  lemma PutBehind<K(!new)>(entries: seq<Entry<K, nat>>, other: K, facade: nat, capacity: nat)
    requires entries != [] && Lookup(entries, other).None? && capacity >= 2
    ensures var e := Put(entries, other, facade, capacity);
            |e| >= 2 && e[|e| - 2] == entries[|entries| - 1]
  {}

  /** In every interleaving the keys are the most recently used, in order, exactly when
      nothing can leave the cache or it never holds two keys. */
  lemma InOrderIff<K(!new)>(c: Config<K>)
    requires c.threads >= 2 && c.capacity >= 1
    ensures (forall s, h :: ReachableWith(c, s, h) ==> InOrder(c, s, h)) <==> KeepsOrder(c)
  {
    if KeepsOrder(c) {
      forall s, h | ReachableWith(c, s, h) ensures InOrder(c, s, h) {
        KeptInOrder(c, s, h);
      }
    } else {
      var s, k := SomeClash(c);
      assert exists other :: other in c.keys && other != k by {
        if forall other :: other in c.keys ==> other == k {
          SubsetSize(c.keys, {k});
        }
      }
      var other :| other in c.keys && other != k;
      var n, h := ClashBreaksOrder(c, s, k, other);
    }
  }
}
