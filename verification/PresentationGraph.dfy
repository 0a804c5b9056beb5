/** Searches over presentation arcs: the path to a concept
    (edgar_sec/apps/client/location.py:176-216) and the members a role declares under an
    axis (edgar_sec/apps/client/presentation.py:236-275). */
module PresentationGraph {
  import opened Common
  import opened Sorting
  import opened Walks

  datatype Arc = Arc(parent: Node, child: Node, order: Option<real>)

  type ArcLists = map<Node, seq<Arc>>

  // ------------------------------------------------------------- grouping the arcs

  /** The arcs of one parent, as filed. */
  function ArcsOf(arcs: seq<Arc>, parent: Node): seq<Arc> {
    if arcs == [] then []
    else
      var before := ArcsOf(arcs[..|arcs| - 1], parent);
      var last := arcs[|arcs| - 1];
      if last.parent == parent then before + [last] else before
  }

  lemma {:induction false} ArcsOfMembers(arcs: seq<Arc>, parent: Node, arc: Arc)
    ensures arc in ArcsOf(arcs, parent) <==> arc in arcs && arc.parent == parent
  {
    if arcs != [] {
      ArcsOfMembers(arcs[..|arcs| - 1], parent, arc);
      assert arcs == arcs[..|arcs| - 1] + [arcs[|arcs| - 1]];
    }
  }

  function Place(arc: Arc): real {
    if arc.order.Some? then arc.order.value else 0.0
  }

  /** Siblings by order, an absent order counting as zero, then by name. */
  predicate SiblingOrder(a: Arc, b: Arc) {
    Place(a) < Place(b) || (Place(a) == Place(b) && StringLe(a.child, b.child))
  }

  lemma SiblingOrderTotal()
    ensures TotalPreorder(SiblingOrder)
  {
    forall a, b ensures SiblingOrder(a, b) || SiblingOrder(b, a) {
      StringLeTotal(a.child, b.child);
    }
    forall a, b, c | SiblingOrder(a, b) && SiblingOrder(b, c) ensures SiblingOrder(a, c) {
      if StringLe(a.child, b.child) && StringLe(b.child, c.child) {
        StringLeTransitive(a.child, b.child, c.child);
      }
    }
  }

  function ChildNames(arcs: seq<Arc>): seq<Node> {
    seq(|arcs|, i requires 0 <= i < |arcs| => arcs[i].child)
  }

  function NamesByParent(lists: ArcLists): Children {
    map parent | parent in lists :: ChildNames(lists[parent])
  }

  ghost predicate FiledArc(arcs: seq<Arc>, parent: Node, child: Node) {
    exists arc :: arc in arcs && arc.parent == parent && arc.child == child
  }

  /** Every parent's arcs, in sibling order. */
  ghost predicate Grouped(arcs: seq<Arc>, lists: ArcLists) {
    && (forall parent :: parent in lists <==> ArcsOf(arcs, parent) != [])
    && (forall parent :: parent in lists ==>
          && SortedBy(SiblingOrder, lists[parent])
          && multiset(lists[parent]) == multiset(ArcsOf(arcs, parent)))
  }

  /** `_children_by_parent`. */
  method ChildrenByParent(arcs: seq<Arc>) returns (children: ArcLists)
    ensures Grouped(arcs, children)
  {
    children := map[];
    for i := 0 to |arcs|
      invariant forall parent :: parent in children <==> ArcsOf(arcs[..i], parent) != []
      invariant forall parent :: parent in children ==> children[parent] == ArcsOf(arcs[..i], parent)
    {
      var arc := arcs[i];
      assert arcs[..i + 1][..i] == arcs[..i];
      children := children[arc.parent := (if arc.parent in children then children[arc.parent] else []) + [arc]];
    }
    assert arcs[..|arcs|] == arcs;
    ghost var filed := children;
    var unsorted := children.Keys;
    SiblingOrderTotal();
    while unsorted != {}
      invariant children.Keys == filed.Keys && unsorted <= children.Keys
      invariant forall parent :: parent in unsorted ==> children[parent] == filed[parent]
      invariant forall parent :: parent in children && parent !in unsorted ==>
                  SortedBy(SiblingOrder, children[parent]) && multiset(children[parent]) == multiset(filed[parent])
      decreases unsorted
    {
      var parent :| parent in unsorted;
      SortIsSorted(SiblingOrder, children[parent]);
      children := children[parent := Sort(SiblingOrder, children[parent])];
      unsorted := unsorted - {parent};
    }
  }

  /** The order of an arc, zero when it has none. */
  ghost predicate HasPlace(arc: Arc, place: real) {
    arc.order == Some(place) || (arc.order == None && place == 0.0)
  }

  /** Of two siblings the earlier has the smaller order, or the same and the earlier name. */
  lemma SiblingsMean(arcs: seq<Arc>, lists: ArcLists, parent: Node, i: nat, j: nat, x: real, y: real)
    requires Grouped(arcs, lists) && parent in lists && i < j < |lists[parent]|
    requires HasPlace(lists[parent][i], x) && HasPlace(lists[parent][j], y)
    ensures x <= y && (x == y ==> StringLe(lists[parent][i].child, lists[parent][j].child))
  {
    assert SiblingOrder(lists[parent][i], lists[parent][j]);
  }

  /** Grouping loses no arc and invents none. */
  lemma GroupedArcs(arcs: seq<Arc>, lists: ArcLists, parent: Node, child: Node)
    requires Grouped(arcs, lists)
    ensures IsArc(NamesByParent(lists), parent, child) <==> FiledArc(arcs, parent, child)
  {
    if parent in lists {
      PermutationMembers(lists[parent], ArcsOf(arcs, parent));
    }
    if IsArc(NamesByParent(lists), parent, child) {
      var list := lists[parent];
      var i :| 0 <= i < |list| && list[i].child == child;
      ArcsOfMembers(arcs, parent, list[i]);
      assert list[i] in list;
    }
    if FiledArc(arcs, parent, child) {
      var arc :| arc in arcs && arc.parent == parent && arc.child == child;
      ArcsOfMembers(arcs, parent, arc);
      var i :| 0 <= i < |lists[parent]| && lists[parent][i] == arc;
      assert ChildNames(lists[parent])[i] == child;
    }
  }

  // ------------------------------------------------------------------ simple paths

  ghost predicate NoRepeats(p: seq<Node>) {
    forall i, j :: 0 <= i < j < |p| ==> p[i] != p[j]
  }

  ghost predicate Avoids(p: seq<Node>, path: seq<Node>) {
    forall x :: x in p ==> x !in path
  }

  /** A simple path from `a` to `b` that avoids `path`. */
  ghost predicate IsSimple(children: Children, a: Node, b: Node, path: seq<Node>, p: seq<Node>) {
    IsWalkFromTo(children, a, b, p) && NoRepeats(p) && Avoids(p, path)
  }

  function Position(list: seq<Node>, x: Node): nat {
    if list == [] || list[0] == x then 0 else 1 + Position(list[1..], x)
  }

  /** Where the two paths first part, `p` takes the earlier sibling. */
  predicate EarlierOrSame(children: Children, p: seq<Node>, q: seq<Node>) {
    || p == q
    || (|p| >= 2 && |q| >= 2 && p[0] == q[0]
        && (if p[1] == q[1] then EarlierOrSame(children, p[1..], q[1..])
            else Position(ChildrenOf(children, p[0]), p[1]) < Position(ChildrenOf(children, p[0]), q[1])))
  }

  ghost predicate IsFirstSimple(children: Children, a: Node, b: Node, path: seq<Node>, p: seq<Node>) {
    && IsSimple(children, a, b, path, p)
    && (forall q :: IsSimple(children, a, b, path, q) ==> EarlierOrSame(children, p, q))
  }

  ghost predicate NoSimple(children: Children, a: Node, b: Node, path: seq<Node>) {
    forall q :: !IsSimple(children, a, b, path, q)
  }

  /** Cutting out the loops of a walk. */
  lemma {:induction false} ReachableMeansSimple(children: Children, a: Node, b: Node, p: seq<Node>)
    requires IsWalkFromTo(children, a, b, p)
    ensures !NoSimple(children, a, b, [])
    decreases |p|
  {
    if NoRepeats(p) {
      assert IsSimple(children, a, b, [], p);
    } else {
      var i, j :| 0 <= i < j < |p| && p[i] == p[j];
      var q := p[..i] + p[j..];
      forall k | 0 < k < |q| ensures IsArc(children, q[k - 1], q[k]) {
        if k > i {
          assert q[k] == p[k - i + j] && q[k - 1] == p[k - 1 - i + j];
        } else if k == i {
          assert q[k] == p[j] && q[k - 1] == p[k - 1];
        }
      }
      assert IsWalkFromTo(children, a, b, q);
      ReachableMeansSimple(children, a, b, q);
    }
  }

  /** A simple path beyond its first node. */
  lemma SimpleTail(children: Children, a: Node, b: Node, path: seq<Node>, q: seq<Node>)
    requires IsSimple(children, a, b, path, q) && a != b
    ensures |q| >= 2 && IsArc(children, a, q[1]) && a !in path
    ensures IsSimple(children, q[1], b, path + [a], q[1..])
  {
    assert |q| >= 2 && q[0] in q;
    var t := q[1..];
    assert IsArc(children, q[0], q[1]);
    forall i | 0 < i < |t| ensures IsArc(children, t[i - 1], t[i]) {
      assert IsArc(children, q[i], q[i + 1]);
    }
    forall x | x in t ensures x !in path + [a] {
      assert x in q;
      var i :| 0 <= i < |t| && t[i] == x;
      assert q[0] != q[i + 1];
    }
  }

  lemma SimpleCons(children: Children, a: Node, c: Node, b: Node, path: seq<Node>, t: seq<Node>)
    requires IsSimple(children, c, b, path + [a], t) && IsArc(children, a, c) && a !in path
    ensures IsSimple(children, a, b, path, [a] + t)
  {
    var q := [a] + t;
    forall x | x in q ensures x !in path {
      assert x == a || x in t;
    }
    forall i, j | 0 <= i < j < |q| ensures q[i] != q[j] {
      assert q[j] == t[j - 1] && t[j - 1] in t;
      assert a in path + [a];
    }
  }

  /** There is at most one first path. */
  lemma {:induction false} FirstSimpleUnique(children: Children, p: seq<Node>, q: seq<Node>)
    requires EarlierOrSame(children, p, q) && EarlierOrSame(children, q, p)
    ensures p == q
  {
    if |p| >= 2 && |q| >= 2 && EarlierOrSame(children, p[1..], q[1..]) && EarlierOrSame(children, q[1..], p[1..]) {
      FirstSimpleUnique(children, p[1..], q[1..]);
      assert p == [p[0]] + p[1..] && q == [q[0]] + q[1..];
    }
  }

  lemma {:induction false} PositionBounds(list: seq<Node>, x: Node, i: nat)
    requires i <= |list|
    ensures x in list[..i] <==> Position(list, x) < i
    decreases i
  {
    if i > 0 && list[0] != x {
      PositionBounds(list[1..], x, i - 1);
      assert list[..i] == [list[0]] + list[1..][..i - 1];
    }
  }

  /** The first child that leads to the target gives the first path. */
  lemma FirstChildWins(children: Children, a: Node, b: Node, path: seq<Node>, i: nat, t: seq<Node>)
    requires a != b && a !in path && i < |ChildrenOf(children, a)|
    requires IsFirstSimple(children, ChildrenOf(children, a)[i], b, path + [a], t)
    requires forall k :: 0 <= k < i ==> NoSimple(children, ChildrenOf(children, a)[k], b, path + [a])
    ensures IsFirstSimple(children, a, b, path, [a] + t)
  {
    var list := ChildrenOf(children, a);
    var p := [a] + t;
    SimpleCons(children, a, list[i], b, path, t);
    forall q | IsSimple(children, a, b, path, q) ensures EarlierOrSame(children, p, q) {
      SimpleTail(children, a, b, path, q);
      assert p[1..] == t && p[1] == list[i];
      if q[1] != list[i] {
        SimpleExists(children, q[1], b, path + [a], q[1..]);
        assert forall k :: 0 <= k < i ==> list[k] != q[1];
        PositionBounds(list, q[1], i);
        PositionBounds(list, q[1], i + 1);
        PositionBounds(list, list[i], i + 1);
        assert list[..i + 1] == list[..i] + [list[i]];
        assert q[1] !in list[..i + 1];
      }
    }
  }

  lemma SimpleExists(children: Children, a: Node, b: Node, path: seq<Node>, q: seq<Node>)
    requires IsSimple(children, a, b, path, q)
    ensures !NoSimple(children, a, b, path)
  {}

  lemma SomeChildWins(children: Children, a: Node, b: Node, path: seq<Node>, q: seq<Node>) returns (k: nat)
    requires a != b && IsSimple(children, a, b, path, q)
    ensures k < |ChildrenOf(children, a)| && !NoSimple(children, ChildrenOf(children, a)[k], b, path + [a])
  {
    SimpleTail(children, a, b, path, q);
    SimpleExists(children, q[1], b, path + [a], q[1..]);
    k :| 0 <= k < |ChildrenOf(children, a)| && ChildrenOf(children, a)[k] == q[1];
  }

  lemma NoChildWins(children: Children, a: Node, b: Node, path: seq<Node>)
    requires a != b
    requires forall k :: 0 <= k < |ChildrenOf(children, a)| ==>
               NoSimple(children, ChildrenOf(children, a)[k], b, path + [a])
    ensures NoSimple(children, a, b, path)
  {
    forall q ensures !IsSimple(children, a, b, path, q) {
      if IsSimple(children, a, b, path, q) {
        var k := SomeChildWins(children, a, b, path, q);
      }
    }
  }

  lemma SameEnds(q: seq<Node>)
    requires q != [] && NoRepeats(q) && q[0] == q[|q| - 1]
    ensures |q| == 1
  {}

  lemma AtTarget(children: Children, b: Node, path: seq<Node>)
    requires b !in path
    ensures IsFirstSimple(children, b, b, path, [b])
  {
    assert IsSimple(children, b, b, path, [b]);
    forall q | IsSimple(children, b, b, path, q) ensures q == [b] {
      SameEnds(q);
    }
  }

  // --------------------------------------------------------------------- the search

  ghost predicate HoldsChildren(lists: ArcLists, all: set<Node>) {
    forall parent, i :: parent in lists && 0 <= i < |lists[parent]| ==> lists[parent][i].child in all
  }

  ghost function Unvisited(all: set<Node>, path: seq<Node>): set<Node> {
    set x | x in all && x !in path
  }

  /** `path` followed by the first simple path that avoids it. */
  ghost predicate IsFirstAfter(children: Children, a: Node, b: Node, path: seq<Node>, whole: seq<Node>) {
    |path| <= |whole| && whole[..|path|] == path && IsFirstSimple(children, a, b, path, whole[|path|..])
  }

  ghost predicate NoneOfFirst(children: Children, list: seq<Node>, n: nat, b: Node, path: seq<Node>) {
    n <= |list| && forall k :: 0 <= k < n ==> NoSimple(children, list[k], b, path)
  }

  lemma OnPath(children: Children, a: Node, b: Node, path: seq<Node>)
    requires a in path
    ensures NoSimple(children, a, b, path)
  {
    forall q ensures !IsSimple(children, a, b, path, q) {
      assert q != [] ==> q[0] in q;
    }
  }

  lemma FoundAtTarget(children: Children, b: Node, path: seq<Node>)
    requires b !in path
    ensures IsFirstAfter(children, b, b, path, path + [b])
  {
    AtTarget(children, b, path);
    assert (path + [b])[|path|..] == [b];
  }

  lemma FoundBelow(children: Children, a: Node, b: Node, path: seq<Node>, i: nat, whole: seq<Node>)
    requires a != b && a !in path
    requires NoneOfFirst(children, ChildrenOf(children, a), i, b, path + [a]) && i < |ChildrenOf(children, a)|
    requires IsFirstAfter(children, ChildrenOf(children, a)[i], b, path + [a], whole)
    ensures IsFirstAfter(children, a, b, path, whole)
  {
    var tail := whole[|path| + 1..];
    FirstChildWins(children, a, b, path, i, tail);
    assert whole == path + [a] + tail;
    assert whole[|path|..] == [a] + tail;
  }

  lemma FewerUnvisited(all: set<Node>, path: seq<Node>, a: Node)
    requires a in all && a !in path
    ensures |Unvisited(all, path + [a])| < |Unvisited(all, path)|
  {
    assert Unvisited(all, path) == Unvisited(all, path + [a]) + {a};
  }

  /** `_walk`: the first simple path to the target in sibling order that avoids the path
      so far, appended to it; nothing exactly when no such path exists. */
  method Walk(concept: Node, target: Node, children: ArcLists, path: seq<Node>, ghost all: set<Node>)
    returns (found: Option<seq<Node>>)
    requires concept in all && HoldsChildren(children, all)
    ensures found.Some? ==> IsFirstAfter(NamesByParent(children), concept, target, path, found.value)
    ensures found.None? ==> NoSimple(NamesByParent(children), concept, target, path)
    decreases |Unvisited(all, path)|
  {
    ghost var names := NamesByParent(children);
    if concept in path {
      OnPath(names, concept, target, path);
      return None;
    }
    var extended := path + [concept];
    if concept == target {
      FoundAtTarget(names, target, path);
      return Some(extended);
    }
    var arcs := if concept in children then children[concept] else [];
    assert ChildrenOf(names, concept) == ChildNames(arcs);
    FewerUnvisited(all, path, concept);
    for i := 0 to |arcs|
      invariant NoneOfFirst(names, ChildNames(arcs), i, target, extended)
    {
      found := Walk(arcs[i].child, target, children, extended, all);
      if found.Some? {
        FoundBelow(names, concept, target, path, i, found.value);
        return;
      }
    }
    NoChildWins(names, concept, target, path);
    return None;
  }

  ghost predicate RootReaches(arcs: seq<Arc>, root: Node, concept: Node) {
    exists p :: IsFiledPath(arcs, root, concept, p)
  }

  /** A walk along filed arcs. */
  ghost predicate IsFiledPath(arcs: seq<Arc>, root: Node, concept: Node, p: seq<Node>) {
    && p != [] && p[0] == root && p[|p| - 1] == concept
    && (forall i :: 0 < i < |p| ==> FiledArc(arcs, p[i - 1], p[i]))
  }

  lemma FiledPathIsWalk(arcs: seq<Arc>, lists: ArcLists, root: Node, concept: Node, p: seq<Node>)
    requires Grouped(arcs, lists)
    ensures IsFiledPath(arcs, root, concept, p) <==> IsWalkFromTo(NamesByParent(lists), root, concept, p)
  {
    forall i | 0 < i < |p| ensures FiledArc(arcs, p[i - 1], p[i]) <==> IsArc(NamesByParent(lists), p[i - 1], p[i]) {
      GroupedArcs(arcs, lists, p[i - 1], p[i]);
    }
  }

  /** No simple path exactly when no path along filed arcs. */
  lemma UnreachedIff(arcs: seq<Arc>, lists: ArcLists, root: Node, concept: Node)
    requires Grouped(arcs, lists)
    ensures NoSimple(NamesByParent(lists), root, concept, []) <==> !RootReaches(arcs, root, concept)
  {
    var names := NamesByParent(lists);
    if RootReaches(arcs, root, concept) {
      var p :| IsFiledPath(arcs, root, concept, p);
      FiledPathIsWalk(arcs, lists, root, concept, p);
      ReachableMeansSimple(names, root, concept, p);
    }
    if !NoSimple(names, root, concept, []) {
      var q :| IsSimple(names, root, concept, [], q);
      FiledPathIsWalk(arcs, lists, root, concept, q);
    }
  }

  /** `_path_to`: a path exactly when some root reaches the concept; it starts at the
      first such root, follows filed arcs, repeats no concept, ends at the concept, and
      comes first in sibling order among such paths. */
  method PathTo(roots: seq<Node>, arcs: seq<Arc>, qname: Node)
    returns (path: Option<seq<Node>>, ghost lists: ArcLists, ghost root: nat)
    ensures path.None? <==> forall k :: 0 <= k < |roots| ==> !RootReaches(arcs, roots[k], qname)
    ensures Grouped(arcs, lists)
    ensures path.Some? ==>
              && root < |roots| && (forall k :: 0 <= k < root ==> !RootReaches(arcs, roots[k], qname))
              && IsFiledPath(arcs, roots[root], qname, path.value) && NoRepeats(path.value)
              && IsFirstSimple(NamesByParent(lists), roots[root], qname, [], path.value)
  {
    var children := ChildrenByParent(arcs);
    lists := children;
    ghost var all := (set x | x in roots) + (set parent, i | parent in children && 0 <= i < |children[parent]| ::
                                             children[parent][i].child);
    for i := 0 to |roots|
      invariant forall k :: 0 <= k < i ==> !RootReaches(arcs, roots[k], qname)
    {
      var found := Walk(roots[i], qname, children, [], all);
      UnreachedIff(arcs, children, roots[i], qname);
      if found.Some? {
        root := i;
        assert found.value[0..] == found.value;
        FiledPathIsWalk(arcs, children, roots[i], qname, found.value);
        return found, lists, root;
      }
    }
    return None, lists, 0;
  }

  // -------------------------------------------------------- members under an axis

  datatype Entry = Entry(category: string, concepts: seq<Node>, arcs: seq<Arc>)

  type Declaration = (string, set<Node>)

  /** The filed members a role's axis subtree reaches. */
  ghost function MembersUnder(arcs: seq<Arc>, axis: Node, filed: set<Node>): set<Node> {
    set m | m in filed && RootReaches(arcs, axis, m)
  }

  /** What one role declares: its category and members, if it shows the concept and the
      axis and reaches any filed member. */
  ghost function DeclaredBy(entry: Entry, concept: Node, axis: Node, filed: set<Node>): seq<Declaration> {
    if axis in entry.concepts && concept in entry.concepts && MembersUnder(entry.arcs, axis, filed) != {}
    then [(entry.category, MembersUnder(entry.arcs, axis, filed))]
    else []
  }

  ghost function DeclaredByAll(entries: seq<Entry>, concept: Node, axis: Node, filed: set<Node>): seq<Declaration> {
    if entries == [] then []
    else DeclaredByAll(entries[..|entries| - 1], concept, axis, filed) + DeclaredBy(entries[|entries| - 1], concept,
        axis, filed)
  }

  /** The role shows the axis and the concept, and the members are the filed ones that its
      arcs reach from the axis, at least one. */
  ghost predicate Declares(entry: Entry, concept: Node, axis: Node, filed: set<Node>, category: string,
                           members: set<Node>) {
    && category == entry.category && axis in entry.concepts && concept in entry.concepts && members != {}
    && (forall m :: m in members <==> m in filed && RootReaches(entry.arcs, axis, m))
  }

  /** The declarations are those of the roles that declare something, and one more role
      only adds at the end. */
  lemma {:induction false} DeclaredMeans(entries: seq<Entry>, concept: Node, axis: Node, filed: set<Node>,
                                         category: string, members: set<Node>)
    ensures (category, members) in DeclaredByAll(entries, concept, axis, filed) <==>
              exists entry :: entry in entries && Declares(entry, concept, axis, filed, category, members)
    ensures entries != [] ==>
              DeclaredByAll(entries[..|entries| - 1], concept, axis, filed)
              <= DeclaredByAll(entries, concept, axis, filed)
  {
    if entries != [] {
      var last, before := entries[|entries| - 1], entries[..|entries| - 1];
      DeclaredMeans(before, concept, axis, filed, category, members);
      assert entries == before + [last];
      DeclarationMeans(last, concept, axis, filed, category, members);
    }
  }

  lemma DeclarationMeans(entry: Entry, concept: Node, axis: Node, filed: set<Node>, category: string,
                         members: set<Node>)
    ensures (category, members) in DeclaredBy(entry, concept, axis, filed) <==>
              Declares(entry, concept, axis, filed, category, members)
  {
    if Declares(entry, concept, axis, filed, category, members) {
      assert members == MembersUnder(entry.arcs, axis, filed);
    }
  }

  /** The child lists as filed. */
  ghost predicate ListsFiledArcs(arcs: seq<Arc>, children: Children) {
    forall x, y :: IsArc(children, x, y) <==> FiledArc(arcs, x, y)
  }

  method FiledChildren(arcs: seq<Arc>) returns (children: Children)
    ensures ListsFiledArcs(arcs, children)
  {
    children := map[];
    for i := 0 to |arcs|
      invariant ListsFiledArcs(arcs[..i], children)
    {
      var arc := arcs[i];
      ghost var before := children;
      children := children[arc.parent := ChildrenOf(children, arc.parent) + [arc.child]];
      forall x, y ensures IsArc(children, x, y) <==> FiledArc(arcs[..i + 1], x, y) {
        AddedArc(arcs, i, before, children, x, y);
      }
    }
    assert arcs[..|arcs|] == arcs;
  }

  lemma AddedArc(arcs: seq<Arc>, i: nat, before: Children, after: Children, x: Node, y: Node)
    requires i < |arcs| && ListsFiledArcs(arcs[..i], before)
    requires after == before[arcs[i].parent := ChildrenOf(before, arcs[i].parent) + [arcs[i].child]]
    ensures IsArc(after, x, y) <==> FiledArc(arcs[..i + 1], x, y)
  {
    assert arcs[..i + 1] == arcs[..i] + [arcs[i]];
    assert IsArc(before, x, y) <==> FiledArc(arcs[..i], x, y);
    assert FiledArc(arcs[..i + 1], x, y)
        <==> FiledArc(arcs[..i], x, y) || (arcs[i].parent == x && arcs[i].child == y) by {
      if FiledArc(arcs[..i], x, y) {
        var arc :| arc in arcs[..i] && arc.parent == x && arc.child == y;
        assert arc in arcs[..i + 1];
      }
      if arcs[i].parent == x && arcs[i].child == y {
        assert arcs[i] in arcs[..i + 1];
      }
    }
  }

  /** Every arc out of `seen` leads to `seen` or the stack. */
  ghost predicate Pending(children: Children, seen: set<Node>, stack: seq<Node>) {
    forall x, y :: x in seen && IsArc(children, x, y) ==> y in seen || y in stack
  }

  ghost predicate AllReachable(children: Children, axis: Node, nodes: set<Node>) {
    forall x :: x in nodes ==> Reachable(children, axis, x)
  }

  lemma ReachableStep(children: Children, a: Node, b: Node)
    requires Reachable(children, a, b)
    ensures AllReachable(children, a, set c | c in ChildrenOf(children, b))
  {
    var p :| IsWalkFromTo(children, a, b, p);
    forall c | c in ChildrenOf(children, b) ensures Reachable(children, a, c) {
      assert IsArc(children, b, c);
      assert IsWalkFromTo(children, a, c, p + [c]);
    }
  }

  ghost predicate Exploring(children: Children, axis: Node, seen: set<Node>, stack: seq<Node>) {
    && seen <= NodesFrom(children, axis)
    && (forall x :: x in stack ==> x in NodesFrom(children, axis))
    && (axis in seen || axis in stack)
    && AllReachable(children, axis, seen) && AllReachable(children, axis, set x | x in stack)
    && Pending(children, seen, stack)
  }

  lemma ExploreStart(children: Children, axis: Node)
    ensures Exploring(children, axis, {}, [axis])
  {
    assert IsWalkFromTo(children, axis, axis, [axis]);
  }

  lemma ExploreDone(children: Children, axis: Node, seen: set<Node>)
    requires Exploring(children, axis, seen, [])
    ensures forall x :: x in seen <==> Reachable(children, axis, x)
  {
    forall x | Reachable(children, axis, x) ensures x in seen {
      var p :| IsWalkFromTo(children, axis, x, p);
      ClosedHoldsWalk(children, axis, seen, p);
    }
  }

  lemma PopSeen(children: Children, axis: Node, seen: set<Node>, stack: seq<Node>, node: Node)
    requires Exploring(children, axis, seen, stack + [node]) && node in seen
    ensures Exploring(children, axis, seen, stack)
  {
    forall x | x in stack ensures x in NodesFrom(children, axis) && Reachable(children, axis, x) {
      assert x in stack + [node];
    }
    forall x, y | x in seen && IsArc(children, x, y) ensures y in seen || y in stack {
      assert y in seen || y in stack + [node];
    }
  }

  lemma PopNew(children: Children, axis: Node, seen: set<Node>, stack: seq<Node>, node: Node)
    requires Exploring(children, axis, seen, stack + [node]) && node !in seen
    ensures Exploring(children, axis, seen + {node}, stack + ChildrenOf(children, node))
    ensures |NodesFrom(children, axis) - (seen + {node})| < |NodesFrom(children, axis) - seen|
  {
    var list := ChildrenOf(children, node);
    assert node in stack + [node];
    assert NodesFrom(children, axis) - seen == (NodesFrom(children, axis) - (seen + {node})) + {node};
    ReachableStep(children, axis, node);
    forall x | x in stack + list ensures x in NodesFrom(children, axis) && Reachable(children, axis, x) {
      if x in stack { assert x in stack + [node]; }
    }
    forall x, y | x in seen + {node} && IsArc(children, x, y) ensures y in seen + {node} || y in stack + list {
      if x in seen {
        assert y in seen || y in stack + [node];
      }
    }
  }

  /** The worklist: `seen` ends as exactly the nodes the axis reaches. */
  method Subtree(children: Children, axis: Node) returns (seen: set<Node>)
    ensures forall x :: x in seen <==> Reachable(children, axis, x)
  {
    seen := {};
    var stack := [axis];
    ExploreStart(children, axis);
    while stack != []
      invariant Exploring(children, axis, seen, stack)
      decreases |NodesFrom(children, axis) - seen|, |stack|
    {
      var node := stack[|stack| - 1];
      ghost var whole := stack;
      stack := stack[..|stack| - 1];
      assert whole == stack + [node];
      if node in seen {
        PopSeen(children, axis, seen, stack, node);
        continue;
      }
      PopNew(children, axis, seen, stack, node);
      seen := seen + {node};
      stack := stack + ChildrenOf(children, node);
    }
    ExploreDone(children, axis, seen);
  }

  lemma ReachableIsFiled(arcs: seq<Arc>, children: Children, a: Node, b: Node)
    requires ListsFiledArcs(arcs, children)
    ensures Reachable(children, a, b) <==> RootReaches(arcs, a, b)
  {
    forall p ensures IsWalkFromTo(children, a, b, p) <==> IsFiledPath(arcs, a, b, p) {
      forall i | 0 < i < |p| ensures IsArc(children, p[i - 1], p[i]) <==> FiledArc(arcs, p[i - 1], p[i]) {}
    }
  }

  /** `declared_breakdown_members`: role by role, the filed members reachable from the
      axis along the role's arcs. */
  method DeclaredBreakdownMembers(entries: seq<Entry>, concept: Node, axis: Node, filed: set<Node>)
    returns (declared: seq<Declaration>)
    ensures declared == DeclaredByAll(entries, concept, axis, filed)
  {
    declared := [];
    for i := 0 to |entries|
      invariant declared == DeclaredByAll(entries[..i], concept, axis, filed)
    {
      var entry := entries[i];
      assert entries[..i + 1][..i] == entries[..i];
      if axis !in entry.concepts || concept !in entry.concepts {
        continue;
      }
      var children := FiledChildren(entry.arcs);
      var seen := Subtree(children, axis);
      var members := seen * filed;
      forall m ensures m in members <==> m in MembersUnder(entry.arcs, axis, filed) {
        ReachableIsFiled(entry.arcs, children, axis, m);
      }
      assert members == MembersUnder(entry.arcs, axis, filed);
      if members != {} {
        declared := declared + [(entry.category, members)];
      }
    }
    assert entries[..|entries|] == entries;
  }
}
