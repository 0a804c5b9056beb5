/** Walks in a finite graph given by child lists, shared by the graph searches. */
module Walks {

  type Node = string
  type Children = map<Node, seq<Node>>

  /** `children.get(node, [])`. */
  function ChildrenOf(children: Children, node: Node): seq<Node> {
    if node in children then children[node] else []
  }

  predicate IsArc(children: Children, parent: Node, child: Node) {
    child in ChildrenOf(children, parent)
  }

  /** Consecutive nodes are arcs. */
  ghost predicate IsWalk(children: Children, p: seq<Node>) {
    p != [] && forall i :: 0 < i < |p| ==> IsArc(children, p[i - 1], p[i])
  }

  ghost predicate IsWalkFromTo(children: Children, a: Node, b: Node, p: seq<Node>) {
    IsWalk(children, p) && p[0] == a && p[|p| - 1] == b
  }

  /** Some walk with `n` arcs leads from `a` to `b`. */
  ghost predicate WalkOfLength(children: Children, a: Node, b: Node, n: nat) {
    exists p :: IsWalkFromTo(children, a, b, p) && |p| == n + 1
  }

  ghost predicate Reachable(children: Children, a: Node, b: Node) {
    exists p :: IsWalkFromTo(children, a, b, p)
  }

  /** Every node that can occur in a search from `a`. */
  function NodesFrom(children: Children, a: Node): set<Node> {
    {a} + set parent, child | parent in children && child in children[parent] :: child
  }

  lemma StandingWalk(children: Children, a: Node)
    ensures WalkOfLength(children, a, a, 0) && IsWalkFromTo(children, a, a, [a])
  {
    assert IsWalkFromTo(children, a, a, [a]);
  }

  lemma ExtendWalk(children: Children, a: Node, b: Node, c: Node, n: nat)
    requires WalkOfLength(children, a, b, n) && IsArc(children, b, c)
    ensures WalkOfLength(children, a, c, n + 1)
  {
    var p :| IsWalkFromTo(children, a, b, p) && |p| == n + 1;
    assert IsWalkFromTo(children, a, c, p + [c]);
  }

  lemma LastArc(children: Children, a: Node, c: Node, n: nat) returns (b: Node)
    requires WalkOfLength(children, a, c, n + 1)
    ensures WalkOfLength(children, a, b, n) && IsArc(children, b, c)
  {
    var p :| IsWalkFromTo(children, a, c, p) && |p| == n + 2;
    b := p[n];
    var q := p[..n + 1];
    assert IsWalkFromTo(children, a, b, q);
  }

  /** A set holding `a` and closed under arcs holds every walk from `a`. */
  lemma {:induction false} ClosedHoldsWalk(children: Children, a: Node, closed: set<Node>, p: seq<Node>)
    requires a in closed
    requires forall x, y :: x in closed && IsArc(children, x, y) ==> y in closed
    requires IsWalk(children, p) && p[0] == a
    ensures forall i :: 0 <= i < |p| ==> p[i] in closed
  {
    if |p| > 1 {
      var q := p[..|p| - 1];
      ClosedHoldsWalk(children, a, closed, q);
      forall i | 0 <= i < |p| ensures p[i] in closed {
        if i == |p| - 1 {
          assert q[i - 1] in closed && IsArc(children, p[i - 1], p[i]);
        } else {
          assert q[i] in closed;
        }
      }
    }
  }
}
