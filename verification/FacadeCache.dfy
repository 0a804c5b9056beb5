/** The bounded LRU of live facades, used by one thread at a time, refined to the
    history of its accesses (edgar_sec/apps/client/facade.py:52-105).  Module
    FacadeThreads models the concurrent protocol. */
module FacadeCache {
  import opened Common

  datatype Entry<K, V> = Entry(key: K, facade: V)

  // ------------------------------------------------------------ access histories

  /** Position of the last access to `k`. */
  function LastAccess<K(==)>(h: seq<K>, k: K): (i: nat)
    requires k in h
    ensures i < |h| && h[i] == k && forall j :: i < j < |h| ==> h[j] != k
  {
    if h[|h| - 1] == k then |h| - 1 else LastAccess(h[..|h| - 1], k)
  }

  /** The distinct keys accessed since `k` was last, `k` included. */
  function Since<K(==)>(h: seq<K>, k: K): set<K>
    requires k in h
  {
    set i | LastAccess(h, k) <= i < |h| :: h[i]
  }

  /** `keys` holds, oldest access first, exactly the keys since whose last access at
      most `capacity` distinct keys were used: the least-recently-used policy. */
  ghost predicate IsLru<K(!new)>(keys: seq<K>, h: seq<K>, capacity: nat) {
    && (forall k :: k in keys <==> k in h && |Since(h, k)| <= capacity)
    && (forall i, j :: 0 <= i < j < |keys| ==>
        keys[i] in h && keys[j] in h && LastAccess(h, keys[i]) < LastAccess(h, keys[j]))
  }

  lemma SinceMember<K>(h: seq<K>, k: K, y: K)
    requires k in h
    ensures y in Since(h, k) <==> y in h && LastAccess(h, y) >= LastAccess(h, k)
  {
    if y in Since(h, k) {
      var i :| LastAccess(h, k) <= i < |h| && h[i] == y;
    }
  }

  lemma SinceNested<K>(h: seq<K>, k: K, y: K)
    requires k in h && y in h && LastAccess(h, k) <= LastAccess(h, y)
    ensures Since(h, y) <= Since(h, k)
  {
  }

  /** The keys used since `keys[i]` are the ones after it. */
  lemma SinceIsSuffix<K(!new)>(keys: seq<K>, h: seq<K>, capacity: nat, i: nat)
    requires IsLru(keys, h, capacity) && i < |keys|
    ensures keys[i] in h && |Since(h, keys[i])| == |keys| - i
  {
    var x := keys[i];
    assert x in keys;
    forall y ensures y in Since(h, x) <==> y in keys[i..] {
      SinceSuffixMember(keys, h, capacity, i, y);
    }
    assert Since(h, x) == set y | y in keys[i..];
    forall a, b | 0 <= a < b < |keys[i..]| ensures keys[i..][a] != keys[i..][b] {
      assert LastAccess(h, keys[i + a]) < LastAccess(h, keys[i + b]);
    }
    DistinctSize(keys[i..]);
  }

  lemma SinceSuffixMember<K(!new)>(keys: seq<K>, h: seq<K>, capacity: nat, i: nat, y: K)
    requires IsLru(keys, h, capacity) && i < |keys| && keys[i] in h && |Since(h, keys[i])| <= capacity
    ensures y in Since(h, keys[i]) <==> y in keys[i..]
  {
    var x := keys[i];
    SinceMember(h, x, y);
    if y in Since(h, x) {
      SinceSmaller(h, x, y);
      assert y in keys;
      var j :| 0 <= j < |keys| && keys[j] == y;
      assert j >= i;
      assert keys[i..][j - i] == y;
    }
    if y in keys[i..] {
      var j :| 0 <= j < |keys[i..]| && keys[i..][j] == y;
      assert keys[i + j] == y && y in keys;
    }
  }

  lemma SinceSmaller<K>(h: seq<K>, x: K, y: K)
    requires x in h && y in h && LastAccess(h, x) <= LastAccess(h, y)
    ensures |Since(h, y)| <= |Since(h, x)|
  {
    SinceNested(h, x, y);
    SubsetSize(Since(h, y), Since(h, x));
  }

  lemma {:induction false} SubsetSize<K>(a: set<K>, b: set<K>)
    requires a <= b
    ensures |a| <= |b|
  {
    assert b == a + (b - a);
  }

  lemma {:induction false} DistinctSize<K>(s: seq<K>)
    requires forall i, j :: 0 <= i < j < |s| ==> s[i] != s[j]
    ensures |set x | x in s| == |s|
  {
    if s != [] {
      var n := |s| - 1;
      DistinctSize(s[..n]);
      assert (set x | x in s) == (set x | x in s[..n]) + {s[n]};
      assert s[n] !in s[..n];
    }
  }

  /** Accessing `k` next moves its last access to the end and adds it to what has
      been used since every other key. */
  lemma AccessEffect<K>(h: seq<K>, k: K, x: K)
    requires x in h + [k]
    ensures x == k ==> LastAccess(h + [k], x) == |h| && Since(h + [k], x) == {k}
    ensures x != k ==> x in h && LastAccess(h + [k], x) == LastAccess(h, x) && Since(h + [k], x) == Since(h, x) + {k}
  {
    var t := h + [k];
    if x != k {
      assert t[..|t| - 1] == h;
      assert t[|h|] == k;
      forall y ensures y in Since(t, x) <==> y in Since(h, x) + {k} {
        if y in Since(h, x) {
          var i :| LastAccess(h, x) <= i < |h| && h[i] == y;
          assert t[i] == y;
        }
      }
    } else {
      assert t[|h|] == k;
    }
  }

  function WithoutAt<T>(s: seq<T>, i: nat): seq<T>
    requires i < |s|
  {
    s[..i] + s[i + 1..]
  }

  function LastN<T>(s: seq<T>, n: nat): seq<T> {
    if |s| <= n then s else s[|s| - n..]
  }

  ghost predicate AscendingAccess<K(!new)>(keys: seq<K>, h: seq<K>) {
    forall i, j :: 0 <= i < j < |keys| ==>
        keys[i] in h && keys[j] in h && LastAccess(h, keys[i]) < LastAccess(h, keys[j])
  }

  /** Order is kept when an accessed key goes to the end of the others. */
  lemma AccessOrders<K(!new)>(others: seq<K>, h: seq<K>, k: K)
    requires AscendingAccess(others, h) && k !in others
    requires forall i :: 0 <= i < |others| ==> others[i] in h
    ensures AscendingAccess(others + [k], h + [k])
  {
    var t := others + [k];
    forall i, j | 0 <= i < j < |t|
      ensures t[i] in h + [k] && t[j] in h + [k] && LastAccess(h + [k], t[i]) < LastAccess(h + [k], t[j]) {
      assert t[i] == others[i] && t[i] in others;
      AccessEffect(h, k, t[i]);
      if j < |others| {
        assert t[j] == others[j] && t[j] in others;
      }
      AccessEffect(h, k, t[j]);
    }
  }

  /** A key used more recently than `k` gains exactly one competitor. */
  lemma SinceGrowsWithin<K>(h: seq<K>, k: K, x: K, capacity: nat)
    requires x in h && k in h && |Since(h, k)| <= capacity && |Since(h, x)| <= capacity
    ensures |Since(h, x) + {k}| <= capacity
  {
    SinceMember(h, x, k);
    if k !in Since(h, x) {
      SinceNested(h, k, x);
      SinceMember(h, k, k);
      SubsetSize(Since(h, x) + {k}, Since(h, k));
    } else {
      assert Since(h, x) + {k} == Since(h, x);
    }
  }

  lemma WithoutMembers<T>(s: seq<T>, i: nat, x: T)
    requires i < |s| && forall a, b :: 0 <= a < b < |s| ==> s[a] != s[b]
    ensures x in WithoutAt(s, i) <==> x in s && x != s[i]
  {
    var t := WithoutAt(s, i);
    if x in s && x != s[i] {
      var j :| 0 <= j < |s| && s[j] == x;
      assert t[if j < i then j else j - 1] == x;
    }
    if x in t {
      var j :| 0 <= j < |t| && t[j] == x;
      assert s[if j < i then j else j + 1] == x;
    }
  }

  /** The cache never holds more than `capacity` facades, nor one key twice. */
  lemma LruBounded<K(!new)>(keys: seq<K>, h: seq<K>, capacity: nat)
    requires IsLru(keys, h, capacity)
    ensures |keys| <= capacity
    ensures forall i, j :: 0 <= i < j < |keys| ==> keys[i] != keys[j]
  {
    if keys != [] {
      SinceIsSuffix(keys, h, capacity, 0);
      assert keys[0] in keys;
    }
    forall i, j | 0 <= i < j < |keys| ensures keys[i] != keys[j] {
      assert LastAccess(h, keys[i]) < LastAccess(h, keys[j]);
    }
  }

  /** A hit moves its key to the end and keeps the policy. */
  lemma HitKeepsLru<K(!new)>(keys: seq<K>, h: seq<K>, capacity: nat, i: nat)
    requires IsLru(keys, h, capacity) && i < |keys|
    ensures IsLru(WithoutAt(keys, i) + [keys[i]], h + [keys[i]], capacity)
  {
    var k := keys[i];
    var others := WithoutAt(keys, i);
    forall a, b | 0 <= a < b < |keys| ensures keys[a] != keys[b] {
      assert LastAccess(h, keys[a]) < LastAccess(h, keys[b]);
    }
    assert k in keys;
    forall a, b | 0 <= a < b < |others|
      ensures others[a] in h && others[b] in h && LastAccess(h, others[a]) < LastAccess(h, others[b]) {
      var a', b' := if a < i then a else a + 1, if b < i then b else b + 1;
      assert others[a] == keys[a'] && others[b] == keys[b'];
    }
    forall x ensures x in others + [k] <==> x in h + [k] && |Since(h + [k], x)| <= capacity {
      WithoutMembers(keys, i, x);
      SinceIsSuffix(keys, h, capacity, i);
      if x in h + [k] {
        AccessEffect(h, k, x);
        if x != k {
          if |Since(h, x)| <= capacity {
            SinceGrowsWithin(h, k, x, capacity);
          } else {
            SubsetSize(Since(h, x), Since(h, x) + {k});
          }
        }
      }
    }
    forall a | 0 <= a < |others| ensures others[a] in h && others[a] != k {
      assert others[a] in others;
      WithoutMembers(keys, i, others[a]);
    }
    AccessOrders(others, h, k);
  }

  /** A key outside the cache was last used before every cached key. */
  lemma MissIsOlder<K(!new)>(keys: seq<K>, h: seq<K>, capacity: nat, k: K, i: nat)
    requires IsLru(keys, h, capacity) && k !in keys && i < |keys|
    ensures keys[i] in h && k !in Since(h, keys[i])
    ensures |Since(h, keys[i]) + {k}| == |keys| - i + 1
  {
    assert keys[i] in keys;
    SinceIsSuffix(keys, h, capacity, i);
    if k in Since(h, keys[i]) {
      SinceMember(h, keys[i], k);
      SinceSmaller(h, keys[i], k);
    }
  }

  /** How many front keys a miss evicts. */
  function Evicted(size: nat, capacity: nat): nat {
    if size + 1 <= capacity then 0 else size + 1 - capacity
  }

  lemma MissMember<K(!new)>(keys: seq<K>, h: seq<K>, capacity: nat, k: K, x: K, drop: nat)
    requires IsLru(keys, h, capacity) && k !in keys && capacity >= 1
    requires |keys| <= capacity && drop == Evicted(|keys|, capacity)
    ensures x in keys[drop..] + [k] <==> x in h + [k] && |Since(h + [k], x)| <= capacity
  {
    if x in h + [k] {
      AccessEffect(h, k, x);
      if x != k {
        KeptIffRecent(keys, h, capacity, k, x, drop);
      }
    } else {
      assert x !in keys;
    }
  }

  lemma SuffixOrder<K(!new)>(keys: seq<K>, h: seq<K>, capacity: nat, k: K, drop: nat)
    requires IsLru(keys, h, capacity) && k !in keys && drop <= |keys|
    ensures AscendingAccess(keys[drop..] + [k], h + [k])
  {
    var kept := keys[drop..];
    forall a, b | 0 <= a < b < |kept|
      ensures kept[a] in h && kept[b] in h && LastAccess(h, kept[a]) < LastAccess(h, kept[b]) {
      assert kept[a] == keys[drop + a] && kept[b] == keys[drop + b];
    }
    forall i | 0 <= i < |kept| ensures kept[i] in h {
      SinceIsSuffix(keys, h, capacity, drop + i);
    }
    AccessOrders(kept, h, k);
  }

  /** A miss appends its key, evicts from the front, and keeps the policy. */
  lemma MissKeepsLru<K(!new)>(keys: seq<K>, h: seq<K>, capacity: nat, k: K)
    requires IsLru(keys, h, capacity) && k !in keys && capacity >= 1
    ensures IsLru(LastN(keys + [k], capacity), h + [k], capacity)
  {
    LruBounded(keys, h, capacity);
    var drop := Evicted(|keys|, capacity);
    assert LastN(keys + [k], capacity) == keys[drop..] + [k];
    forall x { MissMember(keys, h, capacity, k, x, drop); }
    SuffixOrder(keys, h, capacity, k, drop);
  }

  lemma KeptIffRecent<K(!new)>(keys: seq<K>, h: seq<K>, capacity: nat, k: K, x: K, drop: nat)
    requires IsLru(keys, h, capacity) && k !in keys && x in h && x != k
    requires drop <= |keys| && drop == Evicted(|keys|, capacity)
    requires |keys| <= capacity
    ensures x in keys[drop..] <==> |Since(h, x) + {k}| <= capacity
  {
    if x in keys {
      var i :| 0 <= i < |keys| && keys[i] == x;
      MissIsOlder(keys, h, capacity, k, i);
      if i >= drop {
        assert keys[drop..][i - drop] == x;
      } else {
        forall j | 0 <= j < |keys[drop..]| ensures keys[drop..][j] != x {
          assert LastAccess(h, keys[i]) < LastAccess(h, keys[drop + j]);
        }
      }
    } else {
      SubsetSize(Since(h, x), Since(h, x) + {k});
    }
  }

  // ----------------------------------------------------------------- the cache

  function KeysOf<K, V>(entries: seq<Entry<K, V>>): seq<K> {
    seq(|entries|, i requires 0 <= i < |entries| => entries[i].key)
  }

  /** `OrderedDict.get` position. */
  function IndexOf<K(==), V>(entries: seq<Entry<K, V>>, key: K): (r: Option<nat>)
    ensures r.Some? ==> r.value < |entries| && entries[r.value].key == key
    ensures r.None? ==> key !in KeysOf(entries)
  {
    if entries == [] then None
    else if entries[0].key == key then Some(0)
    else
      var rest := IndexOf(entries[1..], key);
      assert KeysOf(entries) == [entries[0].key] + KeysOf(entries[1..]);
      if rest.None? then None else Some(rest.value + 1)
  }

  class FacadeCache<K(==, !new), V> {
    const capacity: nat
    var entries: seq<Entry<K, V>>
    /** A lock per key being built, named by a serial number. */
    var buildLocks: map<K, nat>
    var nextLock: nat
    /** Keys of the calls that returned a facade since the last `Clear`. */
    ghost var history: seq<K>

    ghost predicate Valid()
      reads this
    {
      capacity >= 1 && IsLru(KeysOf(entries), history, capacity)
    }

    constructor (capacity: nat)
      requires capacity >= 1
      ensures Valid() && this.capacity == capacity && entries == [] && history == [] && buildLocks == map[]
    {
      this.capacity := capacity;
      entries, buildLocks, nextLock, history := [], map[], 0, [];
    }

    /** `get_or_build`; `build` is what the builder gives if it is called, a raised
        exception being `Failure`. */
    method GetOrBuild(key: K, build: Result<V>) returns (r: Result<V>)
      requires Valid()
      modifies this
      ensures Valid()
      ensures key in KeysOf(old(entries)) ==>
                var i := IndexOf(old(entries), key).value;
                && r == Success(old(entries)[i].facade)
                && entries == WithoutAt(old(entries), i) + [old(entries)[i]]
                && buildLocks == old(buildLocks)
      ensures key !in KeysOf(old(entries)) ==> r == build
      ensures key !in KeysOf(old(entries)) && build.Success? ==>
                && entries == LastN(old(entries) + [Entry(key, build.value)], capacity)
                && buildLocks == old(buildLocks) - {key}
      ensures key !in KeysOf(old(entries)) && build.Failure? ==>
                && entries == old(entries) && key in buildLocks
                && buildLocks - {key} == old(buildLocks) - {key}
      ensures history == if r.Success? then old(history) + [key] else old(history)
    {
      var found := IndexOf(entries, key);
      if found.Some? {
        HitOrder(entries, found.value);
        HitKeepsLru(KeysOf(entries), history, capacity, found.value);
        r := Success(entries[found.value].facade);
        entries := WithoutAt(entries, found.value) + [entries[found.value]];
        history := history + [key];
        return;
      }
      if key !in buildLocks {
        buildLocks := buildLocks[key := nextLock];
        nextLock := nextLock + 1;
      }
      var buildLock := buildLocks[key];
      r := build;
      if r.Failure? {
        return;
      }
      ghost var before, locks := entries, buildLocks;
      entries := entries + [Entry(key, r.value)];
      while |entries| > capacity
        invariant history == old(history) && buildLocks == locks
        invariant |entries| >= capacity || entries == before + [Entry(key, r.value)]
        invariant entries == LastN(before + [Entry(key, r.value)], |entries|) && |entries| <= |before| + 1
      {
        entries := entries[1..];
      }
      MissOrder(before, Entry(key, r.value), capacity);
      MissKeepsLru(KeysOf(before), history, capacity, key);
      history := history + [key];
      if key in buildLocks && buildLocks[key] == buildLock {
        buildLocks := buildLocks - {key};
      }
    }

    /** `clear`. */
    method Clear()
      requires Valid()
      modifies this
      ensures Valid() && entries == [] && buildLocks == map[] && history == []
    {
      entries, buildLocks, history := [], map[], [];
    }
  }

  lemma HitOrder<K, V>(entries: seq<Entry<K, V>>, i: nat)
    requires i < |entries|
    ensures KeysOf(WithoutAt(entries, i) + [entries[i]]) == WithoutAt(KeysOf(entries), i) + [KeysOf(entries)[i]]
    ensures entries[i].key in KeysOf(entries)
  {
    assert KeysOf(entries)[i] == entries[i].key;
  }

  lemma MissOrder<K, V>(entries: seq<Entry<K, V>>, e: Entry<K, V>, n: nat)
    ensures KeysOf(LastN(entries + [e], n)) == LastN(KeysOf(entries) + [e.key], n)
  {
    assert KeysOf(entries + [e]) == KeysOf(entries) + [e.key];
  }

  /** The policy leaves no choice: history and capacity determine the cached keys
      and their order. */
  lemma {:induction false} LruUnique<K(!new)>(a: seq<K>, b: seq<K>, h: seq<K>, capacity: nat)
    requires IsLru(a, h, capacity) && IsLru(b, h, capacity)
    ensures a == b
  {
    SameMembersSameOrder(a, b, h);
  }

  lemma {:induction false} SameMembersSameOrder<K(!new)>(a: seq<K>, b: seq<K>, h: seq<K>)
    requires AscendingAccess(a, h) && AscendingAccess(b, h)
    requires forall k :: k in a <==> k in b
    ensures a == b
    decreases |a|
  {
    if a == [] {
      assert forall i :: 0 <= i < |b| ==> b[i] in b;
    } else {
      assert a[0] in a;
      var i :| 0 <= i < |b| && b[i] == a[0];
      assert b[0] in b;
      var j :| 0 <= j < |a| && a[j] == b[0];
      assert a[0] == b[0];
      forall k ensures k in a[1..] <==> k in b[1..] {
        TailMembers(a, h, k);
        TailMembers(b, h, k);
      }
      SameMembersSameOrder(a[1..], b[1..], h);
      assert a == [a[0]] + a[1..] && b == [b[0]] + b[1..];
    }
  }

  lemma TailMembers<K(!new)>(s: seq<K>, h: seq<K>, k: K)
    requires s != [] && AscendingAccess(s, h)
    ensures k in s[1..] <==> k in s && k != s[0]
  {
    assert s == [s[0]] + s[1..];
    if k in s[1..] {
      var i :| 0 <= i < |s[1..]| && s[1..][i] == k;
      assert LastAccess(h, s[0]) < LastAccess(h, s[i + 1]);
    }
  }
}
