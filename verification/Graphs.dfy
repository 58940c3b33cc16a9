/**
 Weighted directed graphs as the return planner stores them: a dictionary from
 a node to the list of its (neighbour, weight) pairs. Parallel edges, self-loops
 and zero weights are all representable.
*/
module Graphs {
  type Node = int
  datatype Arc = Arc(to: Node, weight: real)
  type Adjacency = map<Node, seq<Arc>>

  /** adjacency.get(u, []) */
  function Arcs(g: Adjacency, u: Node): seq<Arc> {
    if u in g then g[u] else []
  }

  ghost predicate NonNegative(g: Adjacency) {
    forall u, a :: a in Arcs(g, u) ==> a.weight >= 0.0
  }

  /** A walk, built one hop at a time from its origin. */
  datatype Walk = Start(node: Node) | Hop(before: Walk, to: Node, weight: real)
  {
    function Origin(): Node {
      match this
      case Start(n) => n
      case Hop(w, _, _) => w.Origin()
    }

    function Last(): Node {
      match this
      case Start(n) => n
      case Hop(_, n, _) => n
    }

    function Cost(): real {
      match this
      case Start(_) => 0.0
      case Hop(w, _, c) => w.Cost() + c
    }

    function Nodes(): (s: seq<Node>)
      ensures |s| > 0 && s[|s| - 1] == Last()
    {
      match this
      case Start(n) => [n]
      case Hop(w, n, _) => w.Nodes() + [n]
    }

    /** No node is visited twice. */
    ghost predicate Simple() {
      match this
      case Start(_) => true
      case Hop(w, n, _) => n !in w.Nodes() && w.Simple()
    }

    /** Every node but the last belongs to inner. */
    ghost predicate Through(inner: set<Node>) {
      match this
      case Start(_) => true
      case Hop(w, _, _) => w.Last() in inner && w.Through(inner)
    }

    /** Every hop uses an arc of g. */
    ghost predicate In(g: Adjacency) {
      match this
      case Start(_) => true
      case Hop(w, n, c) => Arc(n, c) in Arcs(g, w.Last()) && w.In(g)
    }
  }

  ghost predicate Connects(g: Adjacency, w: Walk, s: Node, t: Node) {
    w.In(g) && w.Origin() == s && w.Last() == t
  }

  ghost predicate Reachable(g: Adjacency, s: Node, t: Node) {
    exists w: Walk :: Connects(g, w, s, t)
  }

  /** w is a cheapest walk of g from s to t. */
  ghost predicate Cheapest(g: Adjacency, w: Walk, s: Node, t: Node) {
    && Connects(g, w, s, t)
    && forall v: Walk :: Connects(g, v, s, t) ==> w.Cost() <= v.Cost()
  }

  ghost predicate Distinct<T>(s: seq<T>) {
    forall i, j :: 0 <= i < j < |s| ==> s[i] != s[j]
  }

  /** The node list of some cheapest walk, with no node visited twice. */
  ghost predicate IsShortestPath(g: Adjacency, path: seq<Node>, s: Node, t: Node) {
    && Distinct(path)
    && exists w: Walk :: Cheapest(g, w, s, t) && w.Nodes() == path
  }

  lemma {:induction false} SimpleWalksAreDistinct(w: Walk)
    requires w.Simple()
    ensures Distinct(w.Nodes())
  {
    match w
    case Start(_) =>
    case Hop(v, _, _) => SimpleWalksAreDistinct(v);
  }

  lemma {:induction false} ThroughGrows(w: Walk, inner: set<Node>, more: set<Node>)
    requires w.Through(inner) && inner <= more
    ensures w.Through(more)
  {
    match w
    case Start(_) =>
    case Hop(v, _, _) => ThroughGrows(v, inner, more);
  }

  lemma {:induction false} ThroughAvoids(w: Walk, inner: set<Node>, x: Node)
    requires w.Through(inner) && w.Last() in inner && x !in inner
    ensures x !in w.Nodes()
  {
    match w
    case Start(_) =>
    case Hop(v, _, _) => ThroughAvoids(v, inner, x);
  }

  /** Two walks joined end to end. */
  ghost function Join(a: Walk, b: Walk): (w: Walk)
    requires b.Origin() == a.Last()
    ensures w.Origin() == a.Origin() && w.Last() == b.Last()
    ensures w.Cost() == a.Cost() + b.Cost()
    ensures forall g: Adjacency :: a.In(g) && b.In(g) ==> w.In(g)
  {
    match b
    case Start(_) => a
    case Hop(b', n, c) => Hop(Join(a, b'), n, c)
  }
}
