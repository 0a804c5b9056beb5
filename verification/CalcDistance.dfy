/** Layered search for the nearest calculation ancestor
    (edgar_sec/apps/client/financials_core.py:50-68). */
module CalcDistance {
  import opened Common
  import opened Walks

  /** No walk of one to `n` arcs. */
  ghost predicate NoWalkUpTo(children: Children, a: Node, b: Node, n: nat) {
    forall k :: 1 <= k <= n ==> !WalkOfLength(children, a, b, k)
  }

  /** `n` is the number of arcs of the shortest walk that takes at least one arc. */
  ghost predicate IsDistance(children: Children, a: Node, b: Node, n: nat) {
    1 <= n && WalkOfLength(children, a, b, n) && NoWalkUpTo(children, a, b, n - 1)
  }

  // --------------------------------------------------------------------- layers

  /** The nodes exactly `n` arcs away along some walk. */
  ghost function Layer(children: Children, a: Node, n: nat): set<Node> {
    if n == 0 then {a} else AllChildren(children, Layer(children, a, n - 1))
  }

  ghost function AllChildren(children: Children, nodes: set<Node>): set<Node> {
    set parent, child | parent in children && parent in nodes && child in children[parent] :: child
  }

  lemma {:induction false} LayerIsWalks(children: Children, a: Node, b: Node, n: nat)
    ensures b in Layer(children, a, n) <==> WalkOfLength(children, a, b, n)
    decreases n
  {
    if n == 0 {
      StandingWalk(children, a);
      if WalkOfLength(children, a, b, 0) {
        var p :| IsWalkFromTo(children, a, b, p) && |p| == 0 + 1;
      }
    } else {
      if b in Layer(children, a, n) {
        var parent :| parent in children && parent in Layer(children, a, n - 1) && b in children[parent];
        LayerIsWalks(children, a, parent, n - 1);
        assert IsArc(children, parent, b);
        ExtendWalk(children, a, parent, b, n - 1);
      }
      if WalkOfLength(children, a, b, n) {
        var parent := LastArc(children, a, b, n - 1);
        LayerIsWalks(children, a, parent, n - 1);
      }
    }
  }

  /** The target is in none of the layers one to `n`. */
  ghost predicate NotMetUpTo(children: Children, a: Node, target: Node, n: nat) {
    forall k :: 1 <= k <= n ==> target !in Layer(children, a, k)
  }

  ghost predicate Expanded(children: Children, node: Node, seen: set<Node>, target: Node) {
    forall child :: child in ChildrenOf(children, node) ==> child in seen && child != target
  }

  ghost predicate AllExpanded(children: Children, nodes: set<Node>, seen: set<Node>, target: Node) {
    forall x :: x in nodes ==> Expanded(children, x, seen, target)
  }

  ghost predicate AllIn(nodes: seq<Node>, all: set<Node>) {
    forall x :: x in nodes ==> x in all
  }

  ghost function Elements(nodes: seq<Node>): set<Node> {
    set x | x in nodes
  }

  /** Between layers: every node within `distance` arcs is seen, the frontier is the
      part of `seen` not yet expanded, and the target has not been met. */
  ghost predicate Layered(children: Children, a: Node, target: Node, seen: set<Node>, frontier: seq<Node>,
                          distance: nat) {
    && a in seen
    && seen <= NodesFrom(children, a)
    && AllIn(frontier, seen) && AllIn(frontier, Layer(children, a, distance))
    && Layer(children, a, distance) <= seen
    && AllExpanded(children, seen - Elements(frontier), seen, target)
    && NotMetUpTo(children, a, target, distance)
  }

  /** Within a layer: what has been added to `seen` is the next frontier. */
  ghost predicate Growing(children: Children, a: Node, before: set<Node>, seen: set<Node>, following: seq<Node>,
                          distance: nat) {
    && before <= seen <= NodesFrom(children, a)
    && seen - before == Elements(following)
    && AllIn(following, Layer(children, a, distance))
  }

  ghost predicate FirstExpanded(children: Children, nodes: seq<Node>, n: nat, seen: set<Node>, target: Node) {
    n <= |nodes| && forall k :: 0 <= k < n ==> Expanded(children, nodes[k], seen, target)
  }

  ghost predicate Checked(list: seq<Node>, n: nat, seen: set<Node>, target: Node) {
    n <= |list| && forall k :: 0 <= k < n ==> list[k] in seen && list[k] != target
  }

  lemma SearchStart(children: Children, a: Node, target: Node)
    ensures Layered(children, a, target, {a}, [a], 0)
  {}

  lemma LayerStart(children: Children, a: Node, target: Node, seen: set<Node>, frontier: seq<Node>, distance: nat)
    requires Layered(children, a, target, seen, frontier, distance)
    ensures Growing(children, a, seen, seen, [], distance + 1) && FirstExpanded(children, frontier, 0, seen, target)
  {}

  lemma FrontierInLayer(children: Children, a: Node, target: Node, seen: set<Node>, frontier: seq<Node>,
                        distance: nat, i: nat)
    requires Layered(children, a, target, seen, frontier, distance) && i < |frontier|
    ensures frontier[i] in Layer(children, a, distance)
  {
    assert frontier[i] in frontier;
  }

  lemma CheckedStep(list: seq<Node>, n: nat, seen: set<Node>, child: Node, target: Node)
    requires Checked(list, n, seen, target) && n < |list| && list[n] == child && child != target
    ensures Checked(list, n + 1, seen + {child}, target)
  {}

  lemma AddChild(children: Children, a: Node, before: set<Node>, seen: set<Node>, following: seq<Node>, distance: nat,
                 node: Node, child: Node)
    requires Growing(children, a, before, seen, following, distance + 1)
    requires node in Layer(children, a, distance) && child in ChildrenOf(children, node) && child !in seen
    ensures Growing(children, a, before, seen + {child}, following + [child], distance + 1)
  {
    assert Elements(following + [child]) == Elements(following) + {child};
    assert seen + {child} - before == (seen - before) + {child};
  }

  lemma NodeExpanded(children: Children, nodes: seq<Node>, n: nat, earlier: set<Node>, seen: set<Node>, target: Node)
    requires FirstExpanded(children, nodes, n, earlier, target) && n < |nodes| && earlier <= seen
    requires var list := ChildrenOf(children, nodes[n]); Checked(list, |list|, seen, target)
    ensures FirstExpanded(children, nodes, n + 1, seen, target)
  {
    forall k | 0 <= k < n ensures Expanded(children, nodes[k], seen, target) {
      assert Expanded(children, nodes[k], earlier, target);
    }
  }

  lemma LayerDone(children: Children, a: Node, target: Node, seen: set<Node>, frontier: seq<Node>, distance: nat,
                  seen': set<Node>, following: seq<Node>)
    requires Layered(children, a, target, seen, frontier, distance)
    requires Growing(children, a, seen, seen', following, distance + 1)
    requires FirstExpanded(children, frontier, |frontier|, seen', target)
    ensures Layered(children, a, target, seen', following, distance + 1)
    ensures |NodesFrom(children, a) - seen'| <= |NodesFrom(children, a) - seen|
    ensures following != [] ==> |NodesFrom(children, a) - seen'| < |NodesFrom(children, a) - seen|
  {
    forall x | x in seen ensures Expanded(children, x, seen', target) {
      if x in frontier {
        var k :| 0 <= k < |frontier| && frontier[k] == x;
        assert Expanded(children, frontier[k], seen', target);
      } else {
        assert x in seen - Elements(frontier);
        assert Expanded(children, x, seen, target);
      }
    }
    forall x | x in Layer(children, a, distance + 1) ensures x in seen' && x != target {
      var parent :| parent in children && parent in Layer(children, a, distance) && x in children[parent];
      assert Expanded(children, parent, seen', target);
    }
    assert following != [] ==> following[0] in seen' - seen;
    SmallerRest(NodesFrom(children, a), seen, seen');
  }

  /** Every layer leaves fewer nodes to meet, or nothing to expand. */
  lemma SmallerRest(all: set<Node>, before: set<Node>, seen: set<Node>)
    requires before <= seen <= all
    ensures |all - seen| <= |all - before|
    ensures seen - before != {} ==> |all - seen| < |all - before|
  {
    assert all - before == (all - seen) + (seen - before);
    assert |all - before| == |all - seen| + |seen - before|;
  }

  lemma NeverMet(children: Children, a: Node, target: Node, seen: set<Node>, distance: nat)
    requires Layered(children, a, target, seen, [], distance)
    ensures forall n :: n >= 1 ==> !WalkOfLength(children, a, target, n)
  {
    assert seen - Elements([]) == seen;
    forall n | n >= 1 ensures !WalkOfLength(children, a, target, n) {
      StaysSeen(children, a, target, seen, n);
      LayerIsWalks(children, a, target, n);
    }
  }

  lemma {:induction false} StaysSeen(children: Children, a: Node, target: Node, seen: set<Node>, n: nat)
    requires a in seen && AllExpanded(children, seen, seen, target)
    ensures Layer(children, a, n) <= seen && (n >= 1 ==> target !in Layer(children, a, n))
  {
    if n > 0 {
      StaysSeen(children, a, target, seen, n - 1);
    }
  }

  lemma Found(children: Children, a: Node, target: Node, seen: set<Node>, frontier: seq<Node>, distance: nat,
              node: Node)
    requires Layered(children, a, target, seen, frontier, distance)
    requires node in Layer(children, a, distance) && target in ChildrenOf(children, node)
    ensures IsDistance(children, a, target, distance + 1)
  {
    LayerIsWalks(children, a, target, distance + 1);
    forall k | 1 <= k <= distance ensures !WalkOfLength(children, a, target, k) {
      LayerIsWalks(children, a, target, k);
    }
  }

  /** The loop over the children of one node: stops at the target, else adds what is
      new to the next frontier. */
  method ExpandNode(children: Children, node: Node, target: Node, seen0: set<Node>, following0: seq<Node>,
                    ghost a: Node, ghost before: set<Node>, ghost distance: nat)
    returns (met: bool, seen: set<Node>, following: seq<Node>)
    requires Growing(children, a, before, seen0, following0, distance + 1) && node in Layer(children, a, distance)
    ensures met ==> target in ChildrenOf(children, node)
    ensures !met ==> Growing(children, a, before, seen, following, distance + 1) && seen0 <= seen
    ensures !met ==> Checked(ChildrenOf(children, node), |ChildrenOf(children, node)|, seen, target)
  {
    met, seen, following := false, seen0, following0;
    var list := ChildrenOf(children, node);
    for j := 0 to |list|
      invariant !met && seen0 <= seen && Growing(children, a, before, seen, following, distance + 1)
      invariant Checked(list, j, seen, target)
    {
      var child := list[j];
      if child == target {
        met := true;
        return;
      }
      CheckedStep(list, j, seen, child, target);
      assert child in seen ==> seen + {child} == seen;
      if child !in seen {
        AddChild(children, a, before, seen, following, distance, node, child);
        seen := seen + {child};
        following := following + [child];
      }
    }
  }

  /** The loop over one frontier. */
  method ExpandLayer(children: Children, frontier: seq<Node>, target: Node, seen0: set<Node>, ghost a: Node,
                     ghost distance: nat)
    returns (met: bool, seen: set<Node>, following: seq<Node>)
    requires Layered(children, a, target, seen0, frontier, distance)
    ensures met ==> IsDistance(children, a, target, distance + 1)
    ensures !met ==> Growing(children, a, seen0, seen, following, distance + 1)
    ensures !met ==> FirstExpanded(children, frontier, |frontier|, seen, target)
  {
    met, seen, following := false, seen0, [];
    LayerStart(children, a, target, seen0, frontier, distance);
    for i := 0 to |frontier|
      invariant !met && Growing(children, a, seen0, seen, following, distance + 1)
      invariant FirstExpanded(children, frontier, i, seen, target)
    {
      ghost var earlier := seen;
      FrontierInLayer(children, a, target, seen0, frontier, distance, i);
      met, seen, following := ExpandNode(children, frontier[i], target, seen, following, a, seen0, distance);
      if met {
        Found(children, a, target, seen0, frontier, distance, frontier[i]);
        return;
      }
      NodeExpanded(children, frontier, i, earlier, seen, target);
    }
  }

  /** `_calc_distance`: the length of the shortest nonempty walk, so that an ancestor on
      a cycle has a distance to itself; nothing exactly when there is no such walk. */
  method Distance(children: Children, ancestor: Node, target: Node) returns (result: Option<nat>)
    ensures result.Some? ==> IsDistance(children, ancestor, target, result.value)
    ensures result.None? ==> forall n :: n >= 1 ==> !WalkOfLength(children, ancestor, target, n)
  {
    var seen := {ancestor};
    var frontier := [ancestor];
    var distance := 0;
    SearchStart(children, ancestor, target);
    while frontier != []
      invariant Layered(children, ancestor, target, seen, frontier, distance)
      decreases |NodesFrom(children, ancestor) - seen|, |frontier|
    {
      var met, seen', following := ExpandLayer(children, frontier, target, seen, ancestor, distance);
      if met {
        return Some(distance + 1);
      }
      LayerDone(children, ancestor, target, seen, frontier, distance, seen', following);
      seen, frontier, distance := seen', following, distance + 1;
    }
    NeverMet(children, ancestor, target, seen, distance);
    return None;
  }
}
