/**
 The route planner's shortest-path search: Dijkstra with a binary heap whose
 outdated entries are left in place and skipped when they surface.

 The heap is modelled by its contents, a multiset of (distance, node) pairs, and
 a pop that removes a least pair in tuple order; the layout that heapq keeps is
 a library matter.
*/
module Dijkstra {
  import opened Wrappers
  import opened Graphs

  datatype Entry = Entry(key: real, node: Node)

  predicate TupleLe(a: Entry, b: Entry) {
    a.key < b.key || (a.key == b.key && a.node <= b.node)
  }

  /** heapq.heappop: a least entry, and what is left of the heap. */
  method HeapPop(queue: multiset<Entry>) returns (least: Entry, rest: multiset<Entry>)
    requires queue != multiset{}
    ensures IsLeast(least, queue) && rest == queue - multiset{least}
    ensures forall e :: e in queue ==> least.key < e.key || (least.key == e.key && least.node <= e.node)
  {
    var unseen := queue;
    least :| least in unseen;
    while unseen != multiset{}
      invariant unseen <= queue && least in queue
      invariant forall e :: e in queue && e !in unseen ==> TupleLe(least, e)
      decreases |unseen|
    {
      var e :| e in unseen;
      unseen := unseen[e := 0];
      if TupleLe(e, least) {
        least := e;
      }
    }
    rest := queue - multiset{least};
  }

  ghost predicate IsLeast(least: Entry, queue: multiset<Entry>) {
    least in queue && forall e :: e in queue ==> TupleLe(least, e)
  }

  /** Nodes the search can ever touch: a bound for the termination argument. */
  ghost function Universe(g: Adjacency, start: Node): set<Node> {
    {start} + g.Keys + (set u, i | u in g && 0 <= i < |g[u]| :: g[u][i].to)
  }

  /** The search state; route and settled exist only for the proof. */
  ghost predicate Explored(
    g: Adjacency, start: Node, dist: map<Node, real>, prev: map<Node, Node>,
    route: map<Node, Walk>, settled: set<Node>)
  {
    && start in dist && settled <= dist.Keys && dist.Keys == route.Keys
    && dist.Keys <= Universe(g, start)
    && (forall v {:trigger RouteOk(g, start, dist, prev, route, settled, v)} ::
         v in dist ==> RouteOk(g, start, dist, prev, route, settled, v))
  }

  ghost predicate RouteOk(
    g: Adjacency, start: Node, dist: map<Node, real>, prev: map<Node, Node>,
    route: map<Node, Walk>, settled: set<Node>, v: Node)
    requires v in dist && dist.Keys == route.Keys && settled <= dist.Keys
  {
    && Connects(g, route[v], start, v) && route[v].Cost() == dist[v]
    && route[v].Simple() && route[v].Through(settled)
    && (if v == start then route[v] == Start(start)
        else && route[v].Hop?
             && v in prev && prev[v] in settled && route[v].before == route[prev[v]])
  }

  /** The heap against the distances: no entry undercuts, one live entry per open node. */
  ghost predicate QueueOk(dist: map<Node, real>, settled: set<Node>, queue: multiset<Entry>) {
    && (forall e: Entry :: e in queue ==> e.node in dist && dist[e.node] <= e.key)
    && (forall v :: v in dist && v in settled ==> queue[Entry(dist[v], v)] == 0)
    && (forall v :: v in dist && v !in settled ==> queue[Entry(dist[v], v)] == 1)
  }

  /** Settled nodes are no farther than open ones. */
  ghost predicate Ordered(dist: map<Node, real>, settled: set<Node>)
    requires settled <= dist.Keys
  {
    forall s, v :: s in settled && v in dist && v !in settled ==> dist[s] <= dist[v]
  }

  /** The first n arcs of u offer nothing better than the recorded distances. */
  ghost predicate RelaxedArcs(g: Adjacency, dist: map<Node, real>, u: Node, n: int) {
    u in dist && n <= |Arcs(g, u)| &&
    forall i :: 0 <= i < n ==>
      Arcs(g, u)[i].to in dist && dist[Arcs(g, u)[i].to] <= dist[u] + Arcs(g, u)[i].weight
  }

  ghost predicate Relaxed(g: Adjacency, dist: map<Node, real>, settled: set<Node>) {
    forall u :: u in settled ==> RelaxedArcs(g, dist, u, |Arcs(g, u)|)
  }

  /**
   The optimality argument. If all settled nodes are relaxed and every open node
   is at least m away, then any walk either costs at least m or ends in a settled
   node whose recorded distance it does not beat.
  */
  lemma {:induction false} WalksCannotUndercut(
    g: Adjacency, start: Node, dist: map<Node, real>, settled: set<Node>, m: Option<real>, w: Walk)
    requires start in dist && NonNegative(g) && dist[start] == 0.0 && settled <= dist.Keys
    requires Relaxed(g, dist, settled)
    requires forall v :: v in dist && v !in settled ==> m.Some? && m.value <= dist[v]
    requires w.In(g) && w.Origin() == start
    ensures (m.Some? && m.value <= w.Cost()) || (w.Last() in settled && dist[w.Last()] <= w.Cost())
  {
    match w
    case Start(_) =>
    case Hop(v, n, c) =>
      WalksCannotUndercut(g, start, dist, settled, m, v);
      assert Arc(n, c) in Arcs(g, v.Last());
      if v.Last() in settled {
        assert RelaxedArcs(g, dist, v.Last(), |Arcs(g, v.Last())|);
      }
  }

  /** One improving relaxation, from the node u just settled, keeps the routes. */
  lemma ImproveRoute(
    g: Adjacency, start: Node, dist: map<Node, real>, prev: map<Node, Node>,
    route: map<Node, Walk>, settled: set<Node>, u: Node, arc: Arc)
    requires Explored(g, start, dist, prev, route, settled)
    requires u in settled && arc in Arcs(g, u)
    requires arc.to !in settled && arc.to != start
    ensures var Arc(v, w) := arc;
      Explored(g, start, dist[v := dist[u] + w], prev[v := u], route[v := Hop(route[u], v, w)], settled)
  {
    var Arc(v, w) := arc;
    var dist', prev', route' := dist[v := dist[u] + w], prev[v := u], route[v := Hop(route[u], v, w)];
    assert v in Universe(g, start);
    assert RouteOk(g, start, dist, prev, route, settled, u);
    ThroughAvoids(route[u], settled, v);
    assert RouteOk(g, start, dist', prev', route', settled, v);
    forall x | x in dist'
      ensures RouteOk(g, start, dist', prev', route', settled, x)
    {
      if x != v {
        assert RouteOk(g, start, dist, prev, route, settled, x);
      }
    }
  }

  /** ... and keeps the heap. */
  lemma ImproveQueue(
    dist: map<Node, real>, settled: set<Node>, queue: multiset<Entry>, v: Node, nd: real)
    requires QueueOk(dist, settled, queue)
    requires v !in settled && (v !in dist || nd < dist[v])
    ensures QueueOk(dist[v := nd], settled, queue + multiset{Entry(nd, v)})
  {
    assert queue[Entry(nd, v)] == 0;
  }

  /** Lowering distances never invalidates what was already relaxed. */
  lemma LoweringKeepsRelaxed(
    g: Adjacency, dist: map<Node, real>, dist': map<Node, real>, u: Node, n: int)
    requires RelaxedArcs(g, dist, u, n)
    requires forall x :: x in dist ==> x in dist' && dist'[x] <= dist[x]
    requires dist'[u] == dist[u]
    ensures RelaxedArcs(g, dist', u, n)
  {
    forall i | 0 <= i < n
      ensures Arcs(g, u)[i].to in dist' && dist'[Arcs(g, u)[i].to] <= dist'[u] + Arcs(g, u)[i].weight
    {
      assert Arcs(g, u)[i].to in dist;
    }
  }

  /** Skipping an outdated heap entry. */
  lemma StaleStep(dist: map<Node, real>, settled: set<Node>, queue: multiset<Entry>, least: Entry)
    requires QueueOk(dist, settled, queue) && least in queue && least.key > dist[least.node]
    ensures QueueOk(dist, settled, queue - multiset{least})
  {
    forall v | v in dist
      ensures (queue - multiset{least})[Entry(dist[v], v)] == queue[Entry(dist[v], v)]
    {
      assert Entry(dist[v], v) != least;
    }
  }

  /** Settling the node on top of the heap: it was open, and no open node is nearer. */
  lemma SettleStep(
    g: Adjacency, start: Node, dist: map<Node, real>, prev: map<Node, Node>,
    route: map<Node, Walk>, settled: set<Node>, queue: multiset<Entry>, least: Entry)
    requires Explored(g, start, dist, prev, route, settled)
    requires QueueOk(dist, settled, queue)
    requires IsLeast(least, queue)
    requires least.key <= dist[least.node]
    ensures dist[least.node] == least.key && least.node !in settled
    ensures forall v :: v in dist && v !in settled ==> least.key <= dist[v]
    ensures QueueOk(dist, settled + {least.node}, queue - multiset{least})
    ensures Explored(g, start, dist, prev, route, settled + {least.node})
  {
    assert queue[Entry(dist[least.node], least.node)] > 0;
    forall v | v in dist && v !in settled
      ensures least.key <= dist[v]
    {
      assert Entry(dist[v], v) in queue;
    }
    SettleRoutes(g, start, dist, prev, route, settled, least.node);
  }

  lemma SettleRoutes(
    g: Adjacency, start: Node, dist: map<Node, real>, prev: map<Node, Node>,
    route: map<Node, Walk>, settled: set<Node>, u: Node)
    requires Explored(g, start, dist, prev, route, settled) && u in dist
    ensures Explored(g, start, dist, prev, route, settled + {u})
  {
    forall v | v in dist
      ensures RouteOk(g, start, dist, prev, route, settled + {u}, v)
    {
      assert RouteOk(g, start, dist, prev, route, settled, v);
      ThroughGrows(route[v], settled, settled + {u});
    }
  }

  /** The distances part-way through the arcs of u: those of settled nodes are final. */
  ghost predicate Partial(
    g: Adjacency, dist0: map<Node, real>, dist: map<Node, real>, settled: set<Node>, u: Node, i: int)
    requires settled <= dist0.Keys && u in settled
  {
    && dist0.Keys <= dist.Keys
    && (forall s :: s in settled ==> dist[s] == dist0[s])
    && (forall v :: v in dist0 ==> dist[v] <= dist0[v])
    && (forall v :: v in dist && v !in settled ==> dist[u] <= dist[v])
    && RelaxedArcs(g, dist, u, i)
  }

  lemma PartialStep(
    g: Adjacency, dist0: map<Node, real>, dist: map<Node, real>, settled: set<Node>, u: Node, i: nat, v: Node, w: real)
    requires settled <= dist0.Keys && u in settled && NonNegative(g)
    requires forall s :: s in settled ==> dist0[s] <= dist0[u]
    requires Partial(g, dist0, dist, settled, u, i) && i < |Arcs(g, u)| && Arcs(g, u)[i] == Arc(v, w)
    ensures var nd := dist[u] + w;
      if v !in dist || nd < dist[v]
      then v !in settled && Partial(g, dist0, dist[v := nd], settled, u, i + 1)
      else Partial(g, dist0, dist, settled, u, i + 1)
  {
    var nd := dist[u] + w;
    assert Arc(v, w) in Arcs(g, u);
    if v !in dist || nd < dist[v] {
      LoweringKeepsRelaxed(g, dist, dist[v := nd], u, i);
    }
  }

  datatype Frontier = Frontier(dist: map<Node, real>, prev: map<Node, Node>, queue: multiset<Entry>)

  /** The whole invariant of the inner loop, for the arcs of u below i. */
  ghost predicate Relaxing(
    g: Adjacency, start: Node, dist0: map<Node, real>, f: Frontier,
    route: map<Node, Walk>, settled: set<Node>, u: Node, i: int)
    requires settled <= dist0.Keys && u in settled
  {
    && Explored(g, start, f.dist, f.prev, route, settled) && QueueOk(f.dist, settled, f.queue)
    && Partial(g, dist0, f.dist, settled, u, i)
  }

  /** Offer v a route through u. */
  function Offer(f: Frontier, u: Node, v: Node, nd: real): Frontier {
    if v !in f.dist || nd < f.dist[v]
    then Frontier(f.dist[v := nd], f.prev[v := u], f.queue + multiset{Entry(nd, v)})
    else f
  }

  /** A route through u that is shorter than what is on record, or the first, is recorded. */
  lemma OfferTaken(
    g: Adjacency, start: Node, f: Frontier, route: map<Node, Walk>, settled: set<Node>, u: Node, v: Node, w: real)
    returns (route': map<Node, Walk>)
    requires Explored(g, start, f.dist, f.prev, route, settled) && QueueOk(f.dist, settled, f.queue)
    requires u in settled && u in f.dist && start in settled && v !in settled && Arc(v, w) in Arcs(g, u)
    requires v !in f.dist || f.dist[u] + w < f.dist[v]
    ensures Explored(g, start, f.dist[v := f.dist[u] + w], f.prev[v := u], route', settled)
    ensures QueueOk(f.dist[v := f.dist[u] + w], settled, f.queue + multiset{Entry(f.dist[u] + w, v)})
  {
    assert u in route;
    ImproveQueue(f.dist, settled, f.queue, v, f.dist[u] + w);
    ImproveRoute(g, start, f.dist, f.prev, route, settled, u, Arc(v, w));
    route' := route[v := Hop(route[u], v, w)];
  }

  lemma OfferStep(
    g: Adjacency, start: Node, dist0: map<Node, real>, f: Frontier,
    route: map<Node, Walk>, settled: set<Node>, u: Node, i: nat, v: Node, w: real)
    returns (route': map<Node, Walk>)
    requires settled <= dist0.Keys && u in settled && start in settled && NonNegative(g)
    requires forall s :: s in settled ==> dist0[s] <= dist0[u]
    requires Relaxing(g, start, dist0, f, route, settled, u, i) && i < |Arcs(g, u)| && Arcs(g, u)[i] == Arc(v, w)
    ensures Relaxing(g, start, dist0, Offer(f, u, v, f.dist[u] + w), route', settled, u, i + 1)
  {
    PartialStep(g, dist0, f.dist, settled, u, i, v, w);
    if v !in f.dist || f.dist[u] + w < f.dist[v] {
      assert Arc(v, w) in Arcs(g, u);
      route' := OfferTaken(g, start, f, route, settled, u, v, w);
    } else {
      route' := route;
    }
  }

  /** The inner loop: offer a route through u, the node just settled, to each neighbour. */
  method RelaxNeighbours(
    adjacency: Adjacency, u: Node, f0: Frontier,
    ghost start: Node, ghost route0: map<Node, Walk>, ghost settled: set<Node>)
    returns (f: Frontier, ghost route: map<Node, Walk>)
    requires NonNegative(adjacency)
    requires settled <= f0.dist.Keys && u in settled && start in settled
    requires Relaxing(adjacency, start, f0.dist, f0, route0, settled, u, 0)
    requires forall s :: s in settled ==> f0.dist[s] <= f0.dist[u]
    ensures Relaxing(adjacency, start, f0.dist, f, route, settled, u, |Arcs(adjacency, u)|)
  {
    f, route := f0, route0;
    for i := 0 to |Arcs(adjacency, u)|
      invariant Relaxing(adjacency, start, f0.dist, f, route, settled, u, i)
    {
      var Arc(v, w) := Arcs(adjacency, u)[i];
      route := OfferStep(adjacency, start, f0.dist, f, route, settled, u, i, v, w);
      f := Offer(f, u, v, f.dist[u] + w);
    }
  }

  lemma PartialDone(
    g: Adjacency, dist0: map<Node, real>, dist: map<Node, real>, settled: set<Node>, u: Node)
    requires settled <= dist0.Keys && u in settled
    requires Relaxed(g, dist0, settled - {u}) && Partial(g, dist0, dist, settled, u, |Arcs(g, u)|)
    requires forall s :: s in settled ==> dist0[s] <= dist0[u]
    ensures Relaxed(g, dist, settled) && Ordered(dist, settled)
  {
    forall s | s in settled - {u}
      ensures RelaxedArcs(g, dist, s, |Arcs(g, s)|)
    {
      LoweringKeepsRelaxed(g, dist0, dist, s, |Arcs(g, s)|);
    }
  }

  /** Following prev back from the goal spells out the recorded route, so it reaches start. */
  method Reconstruct(
    prev: map<Node, Node>, start: Node, goal: Node,
    ghost g: Adjacency, ghost dist: map<Node, real>, ghost route: map<Node, Walk>, ghost settled: set<Node>)
    returns (nodes: seq<Node>)
    requires Explored(g, start, dist, prev, route, settled) && goal in dist
    ensures nodes == route[goal].Nodes()
  {
    nodes := [goal];
    ghost var tail: seq<Node> := [];
    assert RouteOk(g, start, dist, prev, route, settled, goal);
    while nodes[0] != start
      invariant |nodes| > 0 && nodes[0] in dist
      invariant nodes == [nodes[0]] + tail
      invariant route[nodes[0]].Nodes() + tail == route[goal].Nodes()
      decreases route[nodes[0]]
    {
      ghost var x := nodes[0];
      assert RouteOk(g, start, dist, prev, route, settled, x);
      assert route[x].Nodes() == route[prev[x]].Nodes() + [x];
      tail := nodes;
      nodes := [prev[nodes[0]]] + nodes;
    }
    assert RouteOk(g, start, dist, prev, route, settled, start);
  }

  /** What holds each time the outer loop looks at the heap. */
  ghost predicate Searching(
    g: Adjacency, start: Node, goal: Node, f: Frontier, route: map<Node, Walk>, settled: set<Node>)
  {
    && Explored(g, start, f.dist, f.prev, route, settled) && QueueOk(f.dist, settled, f.queue)
    && Relaxed(g, f.dist, settled) && Ordered(f.dist, settled)
    && goal !in settled && f.dist[start] == 0.0
    && (settled == {} ==> f.dist.Keys == {start})
    && (settled != {} ==> start in settled)
  }

  lemma SearchStart(g: Adjacency, start: Node, goal: Node)
    ensures Searching(g, start, goal, InitialFrontier(start), map[start := Start(start)], {})
  {
    var f := InitialFrontier(start);
    assert RouteOk(g, start, f.dist, f.prev, map[start := Start(start)], {}, start);
  }

  function InitialFrontier(start: Node): Frontier {
    Frontier(map[start := 0.0], map[], multiset{Entry(0.0, start)})
  }

  lemma SettleBegins(
    g: Adjacency, start: Node, goal: Node, f: Frontier, route: map<Node, Walk>, settled: set<Node>, least: Entry)
    requires Searching(g, start, goal, f, route, settled)
    requires IsLeast(least, f.queue) && least.key <= f.dist[least.node]
    ensures var all := settled + {least.node};
      && least.node !in settled && start in all
      && Relaxing(g, start, f.dist, f.(queue := f.queue - multiset{least}), route, all, least.node, 0)
      && forall s :: s in all ==> f.dist[s] <= f.dist[least.node]
  {
    SettleStep(g, start, f.dist, f.prev, route, settled, f.queue, least);
  }

  lemma SettleEnds(
    g: Adjacency, start: Node, goal: Node, f0: Frontier, f: Frontier,
    route0: map<Node, Walk>, route: map<Node, Walk>, settled: set<Node>, u: Node)
    requires Searching(g, start, goal, f0, route0, settled) && u in f0.dist && u !in settled && u != goal
    requires start in settled + {u} && forall s :: s in settled + {u} ==> f0.dist[s] <= f0.dist[u]
    requires settled + {u} <= f0.dist.Keys
    requires Relaxing(g, start, f0.dist, f, route, settled + {u}, u, |Arcs(g, u)|)
    ensures Searching(g, start, goal, f, route, settled + {u})
  {
    assert settled + {u} - {u} == settled;
    PartialDone(g, f0.dist, f.dist, settled + {u}, u);
  }

  /** The body of the outer loop for an entry that is neither outdated nor the goal. */
  method Settle(
    adjacency: Adjacency, f0: Frontier, least: Entry, rest: multiset<Entry>,
    ghost start: Node, ghost goal: Node, ghost route0: map<Node, Walk>, ghost settled: set<Node>)
    returns (f: Frontier, ghost route: map<Node, Walk>)
    requires NonNegative(adjacency) && Searching(adjacency, start, goal, f0, route0, settled)
    requires IsLeast(least, f0.queue) && rest == f0.queue - multiset{least}
    requires least.key <= f0.dist[least.node] && least.node != goal
    ensures least.node !in settled && least.node in Universe(adjacency, start)
    ensures Searching(adjacency, start, goal, f, route, settled + {least.node})
  {
    var u := least.node;
    SettleBegins(adjacency, start, goal, f0, route0, settled, least);
    f := f0.(queue := rest);
    f, route := RelaxNeighbours(adjacency, u, f, start, route0, settled + {u});
    SettleEnds(adjacency, start, goal, f0, f, route0, route, settled, u);
  }

  /** The loop ended, with the goal on top (bound is its distance) or with an empty heap. */
  lemma Conclude(
    g: Adjacency, start: Node, goal: Node, f: Frontier,
    route: map<Node, Walk>, settled: set<Node>, bound: Option<real>)
    requires NonNegative(g) && Searching(g, start, goal, f, route, settled)
    requires if bound.None? then f.queue == multiset{} else goal in f.dist && f.dist[goal] == bound.value
    requires bound.Some? ==> forall v :: v in f.dist && v !in settled ==> bound.value <= f.dist[v]
    ensures goal in f.dist ==> Cheapest(g, route[goal], start, goal) && Distinct(route[goal].Nodes())
    ensures goal in f.dist <==> Reachable(g, start, goal)
  {
    var dist, prev := f.dist, f.prev;
    assert bound.None? ==> forall v :: v in dist && v !in settled ==> f.queue[Entry(dist[v], v)] == 1;
    forall w: Walk | Connects(g, w, start, goal)
      ensures goal in dist && dist[goal] <= w.Cost()
    {
      WalksCannotUndercut(g, start, dist, settled, bound, w);
    }
    if goal in dist {
      assert RouteOk(g, start, dist, prev, route, settled, goal);
      SimpleWalksAreDistinct(route[goal]);
    }
  }

  /** _dijkstra. None exactly when the goal cannot be reached; otherwise a cheapest path. */
  method Search(adjacency: Adjacency, start: Node, goal: Node) returns (path: Option<seq<Node>>)
    requires NonNegative(adjacency)
    ensures path.None? <==> !Reachable(adjacency, start, goal)
    ensures path.Some? ==> IsShortestPath(adjacency, path.value, start, goal)
  {
    var f := InitialFrontier(start);
    ghost var route := map[start := Start(start)];
    ghost var settled: set<Node> := {};
    ghost var bound: Option<real> := None;
    SearchStart(adjacency, start, goal);
    while f.queue != multiset{}
      invariant Searching(adjacency, start, goal, f, route, settled)
      decreases Universe(adjacency, start) - settled, |f.queue|
    {
      var least, rest := HeapPop(f.queue);
      if least.key > f.dist[least.node] {
        StaleStep(f.dist, settled, f.queue, least);
        f := f.(queue := rest);
        continue;
      }
      if least.node == goal {
        SettleStep(adjacency, start, f.dist, f.prev, route, settled, f.queue, least);
        bound := Some(least.key);
        break;
      }
      f, route := Settle(adjacency, f, least, rest, start, goal, route, settled);
      settled := settled + {least.node};
    }
    Conclude(adjacency, start, goal, f, route, settled, bound);
    if goal !in f.dist {
      return None;
    }
    var nodes := Reconstruct(f.prev, start, goal, adjacency, f.dist, route, settled);
    return Some(nodes);
  }
}
