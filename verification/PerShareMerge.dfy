/** Merging per-period candidates by class and year
    (edgar_sec/apps/client/financials_core.py:628-649). */
module PerShareMerge {

  type Key = (string, string)

  datatype Candidate = Candidate(key: Key, span: int, value: real, provenance: string)

  // --------------------------------------------------------------- what is intended

  ghost predicate HasKey(cs: seq<Candidate>, key: Key) {
    exists c :: c in cs && c.key == key
  }

  ghost predicate IsLongest(cs: seq<Candidate>, key: Key, c: Candidate) {
    c in cs && c.key == key && forall d :: d in cs && d.key == key ==> d.span <= c.span
  }

  /** Two candidates of the key's longest span serve different values. */
  ghost predicate DisagreesAtLongest(cs: seq<Candidate>, key: Key) {
    exists c, d :: IsLongest(cs, key, c) && IsLongest(cs, key, d) && c.value != d.value
  }

  // ------------------------------------------------------------------ what is served

  /** Candidate `j` repeats the span of candidate `i` with another value while nothing
      longer has arrived. */
  ghost predicate ClashAt(cs: seq<Candidate>, key: Key, i: int, j: int) {
    && 0 <= i < j < |cs| && cs[i].key == key && cs[j].key == key
    && cs[i].span == cs[j].span && cs[i].value != cs[j].value
    && (forall l :: 0 <= l < j && cs[l].key == key ==> cs[l].span <= cs[j].span)
  }

  ghost predicate Clashes(cs: seq<Candidate>, key: Key) {
    exists i, j :: ClashAt(cs, key, i, j)
  }

  /** Candidate `f` has the longest span and arrived before any other of that span. */
  ghost predicate LeadsAt(cs: seq<Candidate>, key: Key, f: int) {
    && 0 <= f < |cs| && cs[f].key == key
    && (forall l :: 0 <= l < |cs| && cs[l].key == key ==> cs[l].span <= cs[f].span)
    && (forall l :: 0 <= l < f && cs[l].key == key ==> cs[l].span < cs[f].span)
  }

  ghost predicate Leads(cs: seq<Candidate>, key: Key, c: Candidate) {
    exists f :: LeadsAt(cs, key, f) && cs[f] == c
  }

  /** A key's state in the loop: never seen, led by a candidate, or removed for good. */
  ghost predicate KeyState(cs: seq<Candidate>, key: Key, best: map<Key, Candidate>, conflicted: set<Key>) {
    && (key in conflicted <==> Clashes(cs, key))
    && (key in best <==> HasKey(cs, key) && !Clashes(cs, key))
    && (key in best ==> Leads(cs, key, best[key]))
  }

  lemma ClashStays(cs: seq<Candidate>, c: Candidate, key: Key)
    ensures Clashes(cs, key) ==> Clashes(cs + [c], key)
    ensures c.key != key && Clashes(cs + [c], key) ==> Clashes(cs, key)
  {
    if Clashes(cs, key) {
      var i, j :| ClashAt(cs, key, i, j);
      assert ClashAt(cs + [c], key, i, j);
    }
    if c.key != key && Clashes(cs + [c], key) {
      var i, j :| ClashAt(cs + [c], key, i, j);
      assert forall l :: 0 <= l < |cs| ==> (cs + [c])[l] == cs[l];
      assert ClashAt(cs, key, i, j);
    }
  }

  lemma LeaderStays(cs: seq<Candidate>, c: Candidate, key: Key, leader: Candidate)
    requires Leads(cs, key, leader) && (c.key == key ==> c.span <= leader.span)
    ensures Leads(cs + [c], key, leader)
  {
    var f :| LeadsAt(cs, key, f) && cs[f] == leader;
    assert LeadsAt(cs + [c], key, f);
  }

  lemma TakesLead(cs: seq<Candidate>, c: Candidate, leader: Candidate)
    requires Leads(cs, c.key, leader) && c.span > leader.span
    ensures Leads(cs + [c], c.key, c)
  {
    var f :| LeadsAt(cs, c.key, f) && cs[f] == leader;
    assert LeadsAt(cs + [c], c.key, |cs|);
  }

  /** The last candidate clashes with an earlier one only through the leader. */
  lemma ClashAtEnd(cs: seq<Candidate>, c: Candidate, f: nat, i: int)
    requires LeadsAt(cs, c.key, f) && ClashAt(cs + [c], c.key, i, |cs|)
    ensures c.span == cs[f].span && (c.value != cs[f].value || ClashAt(cs, c.key, f, i))
  {
    var all := cs + [c];
    assert all[i] == cs[i] && all[f] == cs[f];
    assert cs[f].span <= c.span && cs[i].span <= cs[f].span;
  }

  /** A candidate of the leader's span clashes exactly if its value differs. */
  lemma LeaderMeets(cs: seq<Candidate>, c: Candidate, leader: Candidate)
    requires Leads(cs, c.key, leader) && !Clashes(cs, c.key)
    ensures Clashes(cs + [c], c.key) <==> c.span == leader.span && c.value != leader.value
  {
    var f :| LeadsAt(cs, c.key, f) && cs[f] == leader;
    var n, all := |cs|, cs + [c];
    if c.span == leader.span && c.value != leader.value {
      assert ClashAt(all, c.key, f, n);
    }
    if Clashes(all, c.key) {
      var i, j :| ClashAt(all, c.key, i, j);
      if j == n {
        ClashAtEnd(cs, c, f, i);
      } else {
        ClashWasThere(cs, c, i, j);
      }
    }
  }

  lemma ClashWasThere(cs: seq<Candidate>, c: Candidate, i: int, j: int)
    requires ClashAt(cs + [c], c.key, i, j) && j < |cs|
    ensures Clashes(cs, c.key)
  {
    assert forall l :: 0 <= l < |cs| ==> (cs + [c])[l] == cs[l];
    assert ClashAt(cs, c.key, i, j);
  }

  lemma FirstOfKey(cs: seq<Candidate>, c: Candidate)
    requires !HasKey(cs, c.key)
    ensures Leads(cs + [c], c.key, c) && !Clashes(cs + [c], c.key)
  {
    var n, all := |cs|, cs + [c];
    assert forall l :: 0 <= l < n ==> all[l] == cs[l] && cs[l] in cs;
    assert LeadsAt(all, c.key, n);
  }

  lemma KeySeen(cs: seq<Candidate>, c: Candidate, key: Key)
    ensures HasKey(cs + [c], key) <==> HasKey(cs, key) || c.key == key
  {
    if HasKey(cs, key) {
      var d :| d in cs && d.key == key;
      assert d in cs + [c];
    }
    assert c in cs + [c];
  }

  /** `_eps_merge`: a key is served unless two of its candidates clashed, and then serves
      the first candidate of its longest span. */
  method Merge(candidates: seq<Candidate>) returns (merged: map<Key, (real, string)>)
    ensures forall key :: key in merged <==> HasKey(candidates, key) && !Clashes(candidates, key)
    ensures forall key :: key in merged ==>
              exists c :: Leads(candidates, key, c) && merged[key] == (c.value, c.provenance)
  {
    var best: map<Key, Candidate> := map[];
    var conflicted: set<Key> := {};
    for i := 0 to |candidates|
      invariant forall key :: KeyState(candidates[..i], key, best, conflicted)
    {
      var c := candidates[i];
      ghost var cs := candidates[..i];
      ghost var best0, conflicted0 := best, conflicted;
      assert candidates[..i + 1] == cs + [c];
      assert KeyState(cs, c.key, best, conflicted);
      if c.key !in conflicted {
        if c.key !in best || c.span > best[c.key].span {
          best := best[c.key := c];
        } else if c.span == best[c.key].span && c.value != best[c.key].value {
          conflicted := conflicted + {c.key};
          best := best - {c.key};
        }
      }
      forall key ensures KeyState(cs + [c], key, best, conflicted) {
        assert KeyState(cs, key, best0, conflicted0);
        Advance(cs, c, key, best0, conflicted0, best, conflicted);
      }
    }
    assert candidates[..|candidates|] == candidates;
    merged := map key | key in best :: (best[key].value, best[key].provenance);
    forall key ensures key in merged <==> HasKey(candidates, key) && !Clashes(candidates, key) {
      assert KeyState(candidates, key, best, conflicted);
    }
    forall key | key in merged ensures Leads(candidates, key, best[key]) {
      assert KeyState(candidates, key, best, conflicted);
    }
  }

  lemma Advance(cs: seq<Candidate>, c: Candidate, key: Key, best: map<Key, Candidate>, conflicted: set<Key>,
                best': map<Key, Candidate>, conflicted': set<Key>)
    requires KeyState(cs, key, best, conflicted) && KeyState(cs, c.key, best, conflicted)
    requires if c.key in conflicted then best' == best && conflicted' == conflicted
             else if c.key !in best || c.span > best[c.key].span then best' == best[c.key := c]
                 && conflicted' == conflicted
             else if c.span == best[c.key].span && c.value != best[c.key].value
             then best' == best - {c.key} && conflicted' == conflicted + {c.key}
             else best' == best && conflicted' == conflicted
    ensures KeyState(cs + [c], key, best', conflicted')
  {
    ClashStays(cs, c, key);
    KeySeen(cs, c, key);
    if key != c.key {
      if key in best { LeaderStays(cs, c, key, best[key]); }
    } else if key in conflicted {
    } else if key in best {
      LeaderMeets(cs, c, best[key]);
      if c.span <= best[key].span { LeaderStays(cs, c, key, best[key]); } else { TakesLead(cs, c, best[key]); }
    } else {
      FirstOfKey(cs, c);
    }
  }

  // --------------------------------------------------------- served against intended

  /** A clash followed by a candidate of longer span. */
  ghost predicate EarlyClash(cs: seq<Candidate>, key: Key) {
    exists i, j, k :: ClashAt(cs, key, i, j) && j < k < |cs| && cs[k].key == key && cs[k].span > cs[j].span
  }

  /** A key disappears when its longest span disagrees, or when a shorter span clashed
      before anything longer arrived. */
  lemma ClashIffLongestOrEarly(cs: seq<Candidate>, key: Key)
    ensures Clashes(cs, key) <==> DisagreesAtLongest(cs, key) || EarlyClash(cs, key)
  {
    if Clashes(cs, key) && !EarlyClash(cs, key) {
      var i, j :| ClashAt(cs, key, i, j);
      assert forall k :: j < k < |cs| && cs[k].key == key ==> cs[k].span <= cs[j].span;
      forall d | d in cs && d.key == key ensures d.span <= cs[j].span {
        var k :| 0 <= k < |cs| && cs[k] == d;
      }
      assert IsLongest(cs, key, cs[i]) && IsLongest(cs, key, cs[j]);
    }
    if DisagreesAtLongest(cs, key) {
      var c, d :| IsLongest(cs, key, c) && IsLongest(cs, key, d) && c.value != d.value;
      var i :| 0 <= i < |cs| && cs[i] == c;
      var j :| 0 <= j < |cs| && cs[j] == d;
      assert forall l :: 0 <= l < |cs| ==> cs[l] in cs;
      assert ClashAt(cs, key, if i < j then i else j, if i < j then j else i);
    }
    if EarlyClash(cs, key) {
      var i, j, k :| ClashAt(cs, key, i, j) && j < k < |cs| && cs[k].key == key && cs[k].span > cs[j].span;
    }
  }

  /** "Longest span wins", conflicts apart, holds for a key exactly when no clash of a
      shorter span precedes a longer candidate, or the longest span disagrees anyway. */
  lemma MeetsIntentIff(cs: seq<Candidate>, key: Key)
    ensures ((HasKey(cs, key) && !Clashes(cs, key)) <==> (HasKey(cs, key) && !DisagreesAtLongest(cs, key)))
       <==> (!EarlyClash(cs, key) || DisagreesAtLongest(cs, key))
  {
    ClashIffLongestOrEarly(cs, key);
    if EarlyClash(cs, key) {
      var i, j, k :| ClashAt(cs, key, i, j) && j < k < |cs| && cs[k].key == key && cs[k].span > cs[j].span;
      assert cs[k] in cs;
    }
  }

  /** The value served is that of every candidate of the longest span. */
  lemma ServedValueIsLongest(cs: seq<Candidate>, key: Key, c: Candidate, d: Candidate)
    requires Leads(cs, key, c) && !Clashes(cs, key) && IsLongest(cs, key, d)
    ensures IsLongest(cs, key, c) && d.value == c.value
  {
    var f :| LeadsAt(cs, key, f) && cs[f] == c;
    forall e | e in cs && e.key == key ensures e.span <= c.span {
      var l :| 0 <= l < |cs| && cs[l] == e;
    }
    assert IsLongest(cs, key, c);
    ClashIffLongestOrEarly(cs, key);
  }

  ghost predicate LongestFirst(cs: seq<Candidate>, key: Key) {
    forall i, j :: 0 <= i < j < |cs| && cs[i].key == key && cs[j].key == key ==> cs[i].span >= cs[j].span
  }

  lemma LongestFirstHasNoEarlyClash(cs: seq<Candidate>, key: Key)
    requires LongestFirst(cs, key)
    ensures !EarlyClash(cs, key)
  {}

  /** When a key's candidates arrive longest first, it disappears exactly when its
      longest span disagrees. */
  lemma LongestFirstIsExact(cs: seq<Candidate>, key: Key)
    requires LongestFirst(cs, key)
    ensures Clashes(cs, key) <==> DisagreesAtLongest(cs, key)
  {
    LongestFirstHasNoEarlyClash(cs, key);
    ClashIffLongestOrEarly(cs, key);
  }

  /** Any two arrival orders without an early clash, longest first among them, serve the
      same keys with the same values. */
  lemma OrderDoesNotMatter(a: seq<Candidate>, b: seq<Candidate>, key: Key)
    requires multiset(a) == multiset(b)
    requires !EarlyClash(a, key) && !EarlyClash(b, key)
    ensures HasKey(a, key) && !Clashes(a, key) <==> HasKey(b, key) && !Clashes(b, key)
    ensures forall c, d :: !Clashes(a, key) && Leads(a, key, c) && Leads(b, key, d) ==> c.value == d.value
  {
    forall c ensures c in a <==> c in b {
      assert c in a <==> c in multiset(a);
      assert c in b <==> c in multiset(b);
    }
    forall c ensures IsLongest(a, key, c) <==> IsLongest(b, key, c) {}
    assert DisagreesAtLongest(a, key) <==> DisagreesAtLongest(b, key);
    ClashIffLongestOrEarly(a, key);
    ClashIffLongestOrEarly(b, key);
    forall c, d | !Clashes(a, key) && Leads(a, key, c) && Leads(b, key, d) ensures c.value == d.value {
      LeaderIsLongest(b, key, d);
      ServedValueIsLongest(a, key, c, d);
    }
  }

  lemma LeaderIsLongest(cs: seq<Candidate>, key: Key, c: Candidate)
    requires Leads(cs, key, c)
    ensures IsLongest(cs, key, c)
  {
    var f :| LeadsAt(cs, key, f) && cs[f] == c;
    forall e | e in cs && e.key == key ensures e.span <= c.span {
      var l :| 0 <= l < |cs| && cs[l] == e;
    }
  }

  /** Two short spans that disagree remove the key even from the year-long span that
      arrives after them; longest first, it is served. */
  lemma ShortClashKillsLongSpan(key: Key)
    ensures var short1 := Candidate(key, 90, 1.0, "filed");
            var short2 := Candidate(key, 90, 2.0, "filed");
            var long := Candidate(key, 365, 4.0, "filed");
            && Clashes([short1, short2, long], key) && !DisagreesAtLongest([short1, short2, long], key)
            && !Clashes([long, short1, short2], key)
  {
    var short1 := Candidate(key, 90, 1.0, "filed");
    var short2 := Candidate(key, 90, 2.0, "filed");
    var long := Candidate(key, 365, 4.0, "filed");
    var late, early := [short1, short2, long], [long, short1, short2];
    assert ClashAt(late, key, 0, 1);
    assert long in late && long in early;
    assert forall c :: IsLongest(late, key, c) ==> c == long;
    assert forall c :: IsLongest(early, key, c) ==> c == long;
    LongestFirstHasNoEarlyClash(early, key);
    ClashIffLongestOrEarly(early, key);
  }

  /** The provenance is that of the first arrival: it can depend on the order even when
      candidates arrive longest first and agree. */
  lemma ProvenanceFollowsArrival(key: Key)
    ensures var filed := Candidate(key, 365, 4.0, "filed");
            var derived := Candidate(key, 365, 4.0, "derived");
            Leads([filed, derived], key, filed) && Leads([derived, filed], key, derived)
            && !Clashes([filed, derived], key) && !Clashes([derived, filed], key)
  {
    var filed := Candidate(key, 365, 4.0, "filed");
    var derived := Candidate(key, 365, 4.0, "derived");
    assert LeadsAt([filed, derived], key, 0);
    assert LeadsAt([derived, filed], key, 0);
  }
}
