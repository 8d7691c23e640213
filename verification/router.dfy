/** The graph layer of `DijkstraRouter`: shortest-path search over an
    abstract weighted graph, path reconstruction, the multi-target search,
    and the tour planner (nearest neighbour, 2-opt, stitching).

    Map loading, nearest-node lookup and plotting depend on external
    libraries and are not part of this model; the graph is an adjacency
    map and a node is an `int`.
 */
module Router {
  import opened Wrappers
  import MinHeap

  type Node = int

  /** An edge attribute: a number, or a value of another type. */
  datatype Attr = Num(n: int) | NotNumber

  /** The data of one edge: its `length` and `weight` attributes, when set. */
  datatype Edge = Edge(length: Option<Attr>, weight: Option<Attr>)

  /** For every node, its out-neighbours and the parallel edges to each. */
  type Graph = map<Node, map<Node, seq<Edge>>>

  /** A distance; `Inf` is `float('inf')`. */
  datatype Dist = Fin(n: nat) | Inf

  /** Every neighbour is itself a node of the graph. */
  ghost predicate WellFormed(g: Graph)
  {
    forall u, v :: u in g && v in g[u] ==> v in g
  }

  predicate IsEdge(g: Graph, u: Node, v: Node)
  {
    u in g && v in g[u]
  }

  // ---------------------------------------------------------------------
  // `_get_edge_weight`
  // ---------------------------------------------------------------------

  /** `data.get('length', data.get('weight', 1.0))`. */
  function RawWeight(e: Edge): Attr
  {
    match e.length
    case Some(a) => a
    case None => match e.weight
      case Some(a) => a
      case None => Num(1)
  }

  predicate ValidWeight(a: Attr)
  {
    a.Num? && a.n >= 0
  }

  /** The valid weights among parallel edges, in order. */
  function ValidWeights(es: seq<Edge>): (r: seq<nat>)
    ensures forall w :: w in r <==> exists i :: 0 <= i < |es| && ValidWeight(RawWeight(es[i])) && RawWeight(es[i]).n == w
  {
    if es == [] then []
    else
      var rest := ValidWeights(es[1..]);
      assert forall i :: 1 <= i < |es| ==> es[i] == es[1..][i - 1];
      if ValidWeight(RawWeight(es[0])) then [RawWeight(es[0]).n] + rest else rest
  }

  function MinOf(ws: seq<nat>): (m: nat)
    requires ws != []
    ensures m in ws && forall w :: w in ws ==> m <= w
  {
    if |ws| == 1 then ws[0]
    else
      var m := MinOf(ws[1..]);
      assert ws == [ws[0]] + ws[1..];
      if ws[0] <= m then ws[0] else m
  }

  /** `_get_edge_weight(u, v)`: `Inf` without an edge; among parallel edges
      the least valid weight, or 1 if none is valid; for a single edge its
      weight, or 1 if that is invalid. */
  function EdgeWeight(g: Graph, u: Node, v: Node): (r: Dist)
    ensures r.Inf? <==> !IsEdge(g, u, v)
  {
    if !IsEdge(g, u, v) then Inf
    else
      var es := g[u][v];
      if |es| > 1 then
        var ws := ValidWeights(es);
        if ws == [] then Fin(1) else Fin(MinOf(ws))
      else if |es| == 1 then
        if ValidWeight(RawWeight(es[0])) then Fin(RawWeight(es[0]).n) else Fin(1)
      else
        // `next(iter({}))` raises StopIteration, which the fallback catches.
        Fin(1)
  }

  /** Over parallel edges the weight is the least valid one, and 1 when no
      edge carries a valid weight. */
  lemma EdgeWeightParallel(g: Graph, u: Node, v: Node)
    requires IsEdge(g, u, v) && |g[u][v]| > 1
    ensures var es := g[u][v];
      if exists i :: 0 <= i < |es| && ValidWeight(RawWeight(es[i])) then
        (exists i :: 0 <= i < |es| && ValidWeight(RawWeight(es[i])) && RawWeight(es[i]).n == EdgeWeight(g, u, v).n) &&
        (forall i :: 0 <= i < |es| && ValidWeight(RawWeight(es[i])) ==> EdgeWeight(g, u, v).n <= RawWeight(es[i]).n)
      else EdgeWeight(g, u, v) == Fin(1)
  {
    var es := g[u][v];
    var ws := ValidWeights(es);
    forall i | 0 <= i < |es| && ValidWeight(RawWeight(es[i]))
      ensures RawWeight(es[i]).n in ws
    {
    }
    if exists i :: 0 <= i < |es| && ValidWeight(RawWeight(es[i])) {
      var i :| 0 <= i < |es| && ValidWeight(RawWeight(es[i]));
      assert RawWeight(es[i]).n in ws;
      var m := MinOf(ws);
      assert m in ws;
    }
  }

  /** Consecutive nodes are joined by edges. */
  ghost predicate IsPath(g: Graph, p: seq<Node>)
  {
    forall i :: 0 <= i < |p| - 1 ==> IsEdge(g, p[i], p[i + 1])
  }

  ghost predicate Reachable(g: Graph, a: Node, b: Node)
  {
    exists p: seq<Node> :: |p| > 0 && p[0] == a && p[|p| - 1] == b && IsPath(g, p)
  }

  /** The total weight of the edges along a path. */
  ghost function PathWeight(g: Graph, p: seq<Node>): nat
    requires IsPath(g, p)
  {
    if |p| < 2 then 0 else EdgeWeight(g, p[0], p[1]).n + PathWeight(g, p[1..])
  }

  /** Some path from `a` to `b` weighs exactly `w`. */
  ghost predicate Walk(g: Graph, a: Node, b: Node, w: nat)
  {
    exists p: seq<Node> :: |p| > 0 && p[0] == a && p[|p| - 1] == b && IsPath(g, p) && PathWeight(g, p) == w
  }

  lemma {:induction false} PathWeightSnoc(g: Graph, p: seq<Node>, v: Node)
    requires |p| > 0 && IsPath(g, p) && IsPath(g, p + [v]) && IsEdge(g, p[|p| - 1], v)
    ensures PathWeight(g, p + [v]) == PathWeight(g, p) + EdgeWeight(g, p[|p| - 1], v).n
    decreases |p|
  {
    if |p| > 1 {
      assert (p + [v])[1..] == p[1..] + [v];
      assert IsPath(g, p[1..]) by {
        forall i | 0 <= i < |p[1..]| - 1
          ensures IsEdge(g, p[1..][i], p[1..][i + 1])
        {
          assert p[1..][i] == p[i + 1] && p[1..][i + 1] == p[i + 2];
        }
      }
      assert IsPath(g, p[1..] + [v]) by {
        forall i | 0 <= i < |p[1..] + [v]| - 1
          ensures IsEdge(g, (p[1..] + [v])[i], (p[1..] + [v])[i + 1])
        {
          assert (p[1..] + [v])[i] == (p + [v])[i + 1] && (p[1..] + [v])[i + 1] == (p + [v])[i + 2];
        }
      }
      PathWeightSnoc(g, p[1..], v);
    }
  }

  lemma WalkStep(g: Graph, a: Node, u: Node, w: nat, v: Node)
    requires Walk(g, a, u, w) && IsEdge(g, u, v)
    ensures Walk(g, a, v, w + EdgeWeight(g, u, v).n)
  {
    var p :| |p| > 0 && p[0] == a && p[|p| - 1] == u && IsPath(g, p) && PathWeight(g, p) == w;
    var q := p + [v];
    forall i | 0 <= i < |q| - 1
      ensures IsEdge(g, q[i], q[i + 1])
    {
      if i < |p| - 1 {
        assert q[i] == p[i] && q[i + 1] == p[i + 1];
      }
    }
    assert q[0] == a && q[|q| - 1] == v;
    PathWeightSnoc(g, p, v);
  }

  lemma WalkSelf(g: Graph, a: Node)
    ensures Walk(g, a, a, 0)
  {
    assert IsPath(g, [a]);
    assert PathWeight(g, [a]) == 0;
  }

  lemma WalkReachable(g: Graph, a: Node, b: Node, w: nat)
    requires Walk(g, a, b, w)
    ensures Reachable(g, a, b)
  {
  }

  // ---------------------------------------------------------------------
  // Dijkstra
  // ---------------------------------------------------------------------

  /** A priority-queue entry `(distance, node)`, ordered as a Python tuple. */
  type Entry = (nat, Node)

  predicate EntryLe(a: Entry, b: Entry)
  {
    a.0 < b.0 || (a.0 == b.0 && a.1 <= b.1)
  }

  /** The search state the source keeps in `distances`, `predecessors` and
      the priority queue: every recorded node is reachable from `start`,
      every node but `start` has a predecessor joined to it by an edge, and
      the queue holds recorded nodes only. */
  ghost predicate SearchInv(g: Graph, start: Node, dist: map<Node, nat>, pred: map<Node, Node>)
  {
    start in g && start in dist && dist[start] == 0 && start !in pred &&
    (forall v :: v in dist ==> v in g && Walk(g, start, v, dist[v]) && (v == start || v in pred)) &&
    (forall v :: v in pred ==> v in dist && pred[v] in dist && IsEdge(g, pred[v], v))
  }

  ghost predicate QueueInv(dist: map<Node, nat>, queue: MinHeap.MinHeap<Entry>)
  {
    forall x :: x in multiset(queue.items) ==> x.1 in dist && dist[x.1] <= x.0
  }

  /** The ranking behind termination of `_reconstruct_path`: `a` is below
      `b` when its recorded distance is smaller, or equal and last updated
      earlier.  `stamp` holds the time of each node's last update; it is
      ghost state of the proof and not kept by the source. */
  ghost predicate Below(dist: map<Node, nat>, stamp: map<Node, nat>, a: Node, b: Node)
  {
    a in dist && b in dist && a in stamp && b in stamp &&
    (dist[a] < dist[b] || (dist[a] == dist[b] && stamp[a] < stamp[b]))
  }

  /** Every predecessor is below its successor, so following predecessors
      never comes back to a node. */
  ghost predicate Ordered(dist: map<Node, nat>, pred: map<Node, Node>, stamp: map<Node, nat>)
  {
    stamp.Keys == dist.Keys && forall v :: v in pred ==> Below(dist, stamp, pred[v], v)
  }

  ghost predicate Ranked(dist: map<Node, nat>, pred: map<Node, Node>, stamp: map<Node, nat>, clock: nat)
  {
    Ordered(dist, pred, stamp) && forall v :: v in stamp ==> stamp[v] < clock
  }

  /** From `(dist, queue)` to `(dist', queue')` no queue entry was dropped,
      and every recorded distance that changed has an entry of its own. */
  ghost predicate Tracked(dist: map<Node, nat>, queue: MinHeap.MinHeap<Entry>,
                          dist': map<Node, nat>, queue': MinHeap.MinHeap<Entry>)
  {
    multiset(queue.items) <= multiset(queue'.items) &&
    forall v :: v in dist' ==> (v in dist && dist'[v] == dist[v]) || (dist'[v], v) in multiset(queue'.items)
  }

  lemma TrackedTrans(d0: map<Node, nat>, q0: MinHeap.MinHeap<Entry>, d1: map<Node, nat>, q1: MinHeap.MinHeap<Entry>,
                     d2: map<Node, nat>, q2: MinHeap.MinHeap<Entry>)
    requires Tracked(d0, q0, d1, q1) && Tracked(d1, q1, d2, q2)
    ensures Tracked(d0, q0, d2, q2)
  {
    forall v | v in d2
      ensures (v in d0 && d2[v] == d0[v]) || (d2[v], v) in multiset(q2.items)
    {
      if v in d1 && d2[v] == d1[v] && !(v in d0 && d1[v] == d0[v]) {
        assert (d1[v], v) in multiset(q1.items);
      }
    }
  }

  /** One neighbour of `_relax_neighbors`: a shorter distance through `u`
      replaces the recorded one. */
  method RelaxEdge(g: Graph, start: Node, u: Node, current: nat, v: Node, dist: map<Node, nat>,
                   pred: map<Node, Node>, queue: MinHeap.MinHeap<Entry>, ghost stamp: map<Node, nat>, ghost clock: nat)
    returns (dist': map<Node, nat>, pred': map<Node, Node>, queue': MinHeap.MinHeap<Entry>,
             ghost stamp': map<Node, nat>, ghost clock': nat)
    requires WellFormed(g) && SearchInv(g, start, dist, pred) && QueueInv(dist, queue)
    requires Ranked(dist, pred, stamp, clock)
    requires u in dist && IsEdge(g, u, v) && dist[u] == current
    ensures SearchInv(g, start, dist', pred') && QueueInv(dist', queue') && Ranked(dist', pred', stamp', clock')
    ensures Tracked(dist, queue, dist', queue')
    ensures dist'.Keys == dist.Keys + {v}
    ensures forall x :: x in dist ==> dist'[x] <= dist[x]
    ensures dist'[v] <= current + EdgeWeight(g, u, v).n
    ensures dist'[u] == current
  {
    var d := current + EdgeWeight(g, u, v).n;
    if v !in dist || d < dist[v] {
      dist' := dist[v := d];
      pred' := pred[v := u];
      queue' := MinHeap.Push(EntryLe, queue, (d, v));
      stamp', clock' := stamp[v := clock], clock + 1;
      RelaxUpdate(g, start, dist, pred, queue, u, v, d);
      RankUpdate(dist, pred, stamp, clock, u, v, d);
      TrackPush(dist, queue, v, d);
    } else {
      dist', pred', queue', stamp', clock' := dist, pred, queue, stamp, clock;
    }
  }

  /** The effect of one successful relaxation on the search state. */
  lemma RelaxUpdate(g: Graph, start: Node, dist: map<Node, nat>, pred: map<Node, Node>, queue: MinHeap.MinHeap<Entry>,
                    u: Node, v: Node, d: nat)
    requires WellFormed(g) && SearchInv(g, start, dist, pred) && QueueInv(dist, queue)
    requires u in dist && IsEdge(g, u, v) && d == dist[u] + EdgeWeight(g, u, v).n
    requires v !in dist || d < dist[v]
    ensures SearchInv(g, start, dist[v := d], pred[v := u])
    ensures QueueInv(dist[v := d], MinHeap.Push(EntryLe, queue, (d, v)))
    ensures dist[v := d].Keys == dist.Keys + {v}
    ensures forall x :: x in dist ==> dist[v := d][x] <= dist[x]
    ensures dist[v := d][u] == dist[u]
  {
    RecordUpdate(g, start, dist, pred, u, v, d);
    QueueUpdate(dist, queue, v, d);
    assert u != v;
  }

  lemma RecordUpdate(g: Graph, start: Node, dist: map<Node, nat>, pred: map<Node, Node>, u: Node, v: Node, d: nat)
    requires WellFormed(g) && SearchInv(g, start, dist, pred)
    requires u in dist && IsEdge(g, u, v) && d == dist[u] + EdgeWeight(g, u, v).n
    requires v !in dist || d < dist[v]
    ensures SearchInv(g, start, dist[v := d], pred[v := u])
    ensures forall x :: x in dist ==> dist[v := d][x] <= dist[x]
  {
    WalkStep(g, start, u, dist[u], v);
    assert v != start;
  }

  lemma QueueUpdate(dist: map<Node, nat>, queue: MinHeap.MinHeap<Entry>, v: Node, d: nat)
    requires QueueInv(dist, queue) && (v !in dist || d < dist[v])
    ensures QueueInv(dist[v := d], MinHeap.Push(EntryLe, queue, (d, v)))
  {
  }

  /** A relaxed node gets a fresh stamp, which keeps it above its new
      predecessor; its successors stay above it because its distance
      dropped. */
  lemma RankUpdate(dist: map<Node, nat>, pred: map<Node, Node>, stamp: map<Node, nat>, clock: nat,
                   u: Node, v: Node, d: nat)
    requires Ranked(dist, pred, stamp, clock) && u in dist && dist[u] <= d && (v !in dist || d < dist[v])
    ensures Ranked(dist[v := d], pred[v := u], stamp[v := clock], clock + 1)
  {
    var dist', pred', stamp' := dist[v := d], pred[v := u], stamp[v := clock];
    forall x | x in pred'
      ensures Below(dist', stamp', pred'[x], x)
    {
      if x != v {
        assert Below(dist, stamp, pred[x], x);
      }
    }
  }

  lemma TrackPush(dist: map<Node, nat>, queue: MinHeap.MinHeap<Entry>, v: Node, d: nat)
    ensures Tracked(dist, queue, dist[v := d], MinHeap.Push(EntryLe, queue, (d, v)))
  {
    var q' := MinHeap.Push(EntryLe, queue, (d, v));
    assert (d, v) in multiset(q'.items);
  }

  /** What `_relax_neighbors` has achieved once the neighbours outside
      `todo` are done. */
  ghost predicate RelaxedExcept(g: Graph, u: Node, current: nat, dist: map<Node, nat>, dist': map<Node, nat>,
                                todo: set<Node>)
    requires u in g
  {
    todo <= g[u].Keys &&
    dist'.Keys == dist.Keys + (g[u].Keys - todo) &&
    (forall v :: v in dist ==> dist'[v] <= dist[v]) &&
    (forall v :: v in g[u] && v !in todo ==> dist'[v] <= current + EdgeWeight(g, u, v).n) &&
    u in dist' && dist'[u] == current
  }

  /** One iteration of `_relax_neighbors`: relax the edge to some neighbour
      still to do. */
  method RelaxNext(g: Graph, start: Node, u: Node, current: nat, dist: map<Node, nat>, todo: set<Node>,
                   dist1: map<Node, nat>, pred1: map<Node, Node>, queue1: MinHeap.MinHeap<Entry>,
                   ghost stamp1: map<Node, nat>, ghost clock1: nat)
    returns (todo': set<Node>, dist': map<Node, nat>, pred': map<Node, Node>, queue': MinHeap.MinHeap<Entry>,
             ghost stamp': map<Node, nat>, ghost clock': nat)
    requires WellFormed(g) && u in g && todo != {}
    requires SearchInv(g, start, dist1, pred1) && QueueInv(dist1, queue1) && Ranked(dist1, pred1, stamp1, clock1)
    requires RelaxedExcept(g, u, current, dist, dist1, todo)
    ensures SearchInv(g, start, dist', pred') && QueueInv(dist', queue') && Ranked(dist', pred', stamp', clock')
    ensures RelaxedExcept(g, u, current, dist, dist', todo') && Tracked(dist1, queue1, dist', queue')
    ensures todo' < todo
  {
    Pick(todo);
    var v :| v in todo;
    dist', pred', queue', stamp', clock' := RelaxEdge(g, start, u, current, v, dist1, pred1, queue1, stamp1, clock1);
    RelaxStep(g, u, current, dist, dist1, dist', todo, v);
    todo' := todo - {v};
  }

  /** `_relax_neighbors(u, ...)`: every neighbour reached more cheaply
      through `u` gets the new distance, `u` as predecessor, and a queue
      entry. */
  method RelaxNeighbors(g: Graph, start: Node, u: Node, dist: map<Node, nat>, pred: map<Node, Node>,
                        queue: MinHeap.MinHeap<Entry>, ghost stamp: map<Node, nat>, ghost clock: nat)
    returns (dist': map<Node, nat>, pred': map<Node, Node>, queue': MinHeap.MinHeap<Entry>,
             ghost stamp': map<Node, nat>, ghost clock': nat)
    requires WellFormed(g) && SearchInv(g, start, dist, pred) && QueueInv(dist, queue) && u in dist
    requires Ranked(dist, pred, stamp, clock)
    ensures SearchInv(g, start, dist', pred') && QueueInv(dist', queue') && Ranked(dist', pred', stamp', clock')
    ensures Tracked(dist, queue, dist', queue')
    ensures dist'.Keys == dist.Keys + g[u].Keys
    ensures forall v :: v in dist ==> dist'[v] <= dist[v]
    ensures forall v :: v in g[u] ==> dist'[v] <= dist[u] + EdgeWeight(g, u, v).n
  {
    var current := dist[u];
    dist', pred', queue', stamp', clock' := dist, pred, queue, stamp, clock;
    var todo := g[u].Keys;
    while todo != {}
      invariant SearchInv(g, start, dist', pred') && QueueInv(dist', queue') && Ranked(dist', pred', stamp', clock')
      invariant RelaxedExcept(g, u, current, dist, dist', todo) && Tracked(dist, queue, dist', queue')
      decreases todo
    {
      var d1, q1 := dist', queue';
      todo, dist', pred', queue', stamp', clock' :=
        RelaxNext(g, start, u, current, dist, todo, dist', pred', queue', stamp', clock');
      TrackedTrans(dist, queue, d1, q1, dist', queue');
    }
  }

  /** Bookkeeping of one `_relax_neighbors` iteration. */
  lemma RelaxStep(g: Graph, u: Node, current: nat, dist: map<Node, nat>, d1: map<Node, nat>, d2: map<Node, nat>,
                  todo: set<Node>, v: Node)
    requires u in g && v in todo && todo <= g[u].Keys
    requires d1.Keys == dist.Keys + (g[u].Keys - todo)
    requires forall x :: x in dist ==> d1[x] <= dist[x]
    requires forall x :: x in g[u] && x !in todo ==> d1[x] <= current + EdgeWeight(g, u, x).n
    requires d2.Keys == d1.Keys + {v} && d2[v] <= current + EdgeWeight(g, u, v).n
    requires forall x :: x in d1 ==> d2[x] <= d1[x]
    ensures d2.Keys == dist.Keys + (g[u].Keys - (todo - {v}))
    ensures forall x :: x in dist ==> d2[x] <= dist[x]
    ensures forall x :: x in g[u] && x !in todo - {v} ==> d2[x] <= current + EdgeWeight(g, u, x).n
  {
    assert g[u].Keys - (todo - {v}) == (g[u].Keys - todo) + {v};
  }

  lemma EmptySet(s: set<Node>)
    ensures (forall v :: v !in s) ==> s == {}
  {
    if forall v :: v !in s {
      assert s == {};
    }
  }

  lemma Pick(s: set<Node>)
    requires s != {}
    ensures exists v :: v in s
  {
    EmptySet(s);
  }

  /** `_reconstruct_path`: follow predecessors back from `end`.  The cycle
      guard and the node-count guard raise `ValueError`; neither fires on
      the predecessors of a search, whose ranking `stamp` orders them. */
  method ReconstructPath(g: Graph, pred: map<Node, Node>, start: Node, end: Node,
                         ghost dist: map<Node, nat>, ghost stamp: map<Node, nat>)
    returns (r: Result<seq<Node>>)
    ensures r.Err? ==> r.error == ValueError
    ensures r.Ok? && r.value == [] <==> end !in pred && end != start
    ensures r.Ok? && r.value != [] ==>
      r.value[|r.value| - 1] == end && r.value[0] !in pred &&
      forall i :: 1 <= i < |r.value| ==> r.value[i] in pred && pred[r.value[i]] == r.value[i - 1]
    ensures Ordered(dist, pred, stamp) && dist.Keys <= g.Keys && end in dist ==> r.Ok?
  {
    if end !in pred && end != start {
      return Ok([]);
    }
    ghost var ranked := Ordered(dist, pred, stamp) && dist.Keys <= g.Keys && end in dist;
    var back: seq<Node> := [end];
    var seen := {end};
    if ranked {
      DistinctCard(back, g.Keys);
    }
    if |back| > |g| {
      return Err(ValueError);
    }
    while back[|back| - 1] in pred
      invariant 0 < |back| <= |g| && back[0] == end
      invariant forall i :: 0 <= i < |back| - 1 ==> back[i] in pred && back[i + 1] == pred[back[i]]
      invariant forall x :: x in seen ==> x in back
      invariant ranked ==> ChainDown(dist, stamp, back)
      decreases |g| - |back|
    {
      var next := pred[back[|back| - 1]];
      if ranked {
        ChainExtend(dist, pred, stamp, back);
      }
      if next in seen {
        return Err(ValueError);
      }
      back := back + [next];
      seen := seen + {next};
      if ranked {
        DistinctCard(back, g.Keys);
      }
      if |back| > |g| {
        return Err(ValueError);
      }
    }
    var path := Reverse(back);
    return Ok(path);
  }

  /** A backward chain whose nodes are recorded, distinct, and each below
      all the earlier ones. */
  ghost predicate ChainDown(dist: map<Node, nat>, stamp: map<Node, nat>, back: seq<Node>)
  {
    back != [] && Distinct(back) && (forall i :: 0 <= i < |back| ==> back[i] in dist) &&
    forall i :: 0 <= i < |back| - 1 ==> Below(dist, stamp, back[|back| - 1], back[i])
  }

  /** The predecessor of the last node of a descending chain is new to it. */
  lemma ChainExtend(dist: map<Node, nat>, pred: map<Node, Node>, stamp: map<Node, nat>, back: seq<Node>)
    requires Ordered(dist, pred, stamp) && ChainDown(dist, stamp, back) && back[|back| - 1] in pred
    ensures pred[back[|back| - 1]] !in back && ChainDown(dist, stamp, back + [pred[back[|back| - 1]]])
  {
    var last := back[|back| - 1];
    var next := pred[last];
    assert Below(dist, stamp, next, last);
    var b := back + [next];
    forall i | 0 <= i < |b| - 1
      ensures Below(dist, stamp, next, b[i]) && b[i] != next
    {
      if i < |back| - 1 {
        assert Below(dist, stamp, last, back[i]);
      }
    }
    forall i, j | 0 <= i < j < |b|
      ensures b[i] != b[j]
    {
      if j < |back| {
        assert b[i] == back[i] && b[j] == back[j];
      }
    }
  }

  /** Distinct elements of a set are no more than its size. */
  lemma {:induction false} DistinctCard(s: seq<Node>, all: set<Node>)
    requires Distinct(s) && forall i :: 0 <= i < |s| ==> s[i] in all
    ensures |s| <= |all|
    decreases |s|
  {
    if s != [] {
      var x := s[|s| - 1];
      var front := s[..|s| - 1];
      forall i | 0 <= i < |front|
        ensures front[i] in all - {x}
      {
        assert front[i] == s[i];
      }
      DistinctCard(front, all - {x});
    }
  }

  function Reverse(s: seq<Node>): (r: seq<Node>)
    ensures |r| == |s| && forall i :: 0 <= i < |s| ==> r[i] == s[|s| - 1 - i]
  {
    if s == [] then [] else Reverse(s[1..]) + [s[0]]
  }

  /** The completeness half of the search state: every neighbour of a
      visited node is recorded, and every recorded node not yet visited
      has a queue entry carrying its recorded distance. */
  ghost predicate Settled(g: Graph, dist: map<Node, nat>, queue: MinHeap.MinHeap<Entry>, visited: set<Node>)
  {
    visited <= dist.Keys &&
    (forall u, v :: u in visited && IsEdge(g, u, v) ==> v in dist) &&
    (forall v :: v in dist && v !in visited ==> (dist[v], v) in multiset(queue.items))
  }

  /** Dropping a visited or stale entry leaves every unvisited node
      queued at its recorded distance. */
  lemma SkipSettled(g: Graph, dist: map<Node, nat>, queue: MinHeap.MinHeap<Entry>, rest: MinHeap.MinHeap<Entry>,
                    visited: set<Node>, d: nat, u: Node)
    requires Settled(g, dist, queue, visited)
    requires multiset(rest.items) + multiset{(d, u)} == multiset(queue.items)
    requires u in visited || (u in dist && d != dist[u])
    ensures Settled(g, dist, rest, visited)
  {
    forall v | v in dist && v !in visited
      ensures (dist[v], v) in multiset(rest.items)
    {
      assert (dist[v], v) in multiset(queue.items);
    }
  }

  /** Visiting `u` and relaxing its neighbours keeps the search settled. */
  lemma VisitSettled(g: Graph, dist: map<Node, nat>, queue: MinHeap.MinHeap<Entry>, rest: MinHeap.MinHeap<Entry>,
                     visited: set<Node>, u: Node, dist': map<Node, nat>, queue': MinHeap.MinHeap<Entry>)
    requires Settled(g, dist, queue, visited) && u in dist && u in g
    requires multiset(rest.items) + multiset{(dist[u], u)} == multiset(queue.items)
    requires Tracked(dist, rest, dist', queue') && dist'.Keys == dist.Keys + g[u].Keys
    ensures Settled(g, dist', queue', visited + {u})
  {
    forall v | v in dist' && v !in visited + {u}
      ensures (dist'[v], v) in multiset(queue'.items)
    {
      if v in dist && dist'[v] == dist[v] {
        assert (dist[v], v) in multiset(queue.items);
        assert (dist[v], v) in multiset(rest.items);
      }
    }
  }

  /** Once the queue is empty every node reachable from `start` has been
      visited. */
  lemma Exhausted(g: Graph, start: Node, dist: map<Node, nat>, queue: MinHeap.MinHeap<Entry>, visited: set<Node>,
                  t: Node)
    requires Settled(g, dist, queue, visited) && MinHeap.IsEmpty(queue) && start in dist
    requires Reachable(g, start, t)
    ensures t in visited
  {
    assert multiset(queue.items) == multiset{};
    var p :| |p| > 0 && p[0] == start && p[|p| - 1] == t && IsPath(g, p);
    var i := 0;
    while i < |p| - 1
      invariant 0 <= i < |p| && p[i] in visited
    {
      assert IsEdge(g, p[i], p[i + 1]);
      i := i + 1;
    }
  }

  /** Visiting `u`, popped at its recorded distance: `_relax_neighbors`
      keeps the search settled with `u` added to the visited nodes. */
  method Visit(g: Graph, start: Node, u: Node, dist: map<Node, nat>, pred: map<Node, Node>,
               queue: MinHeap.MinHeap<Entry>, rest: MinHeap.MinHeap<Entry>, visited: set<Node>,
               ghost stamp: map<Node, nat>, ghost clock: nat)
    returns (dist': map<Node, nat>, pred': map<Node, Node>, queue': MinHeap.MinHeap<Entry>,
             ghost stamp': map<Node, nat>, ghost clock': nat)
    requires WellFormed(g) && SearchInv(g, start, dist, pred) && QueueInv(dist, rest) && Ranked(dist, pred, stamp, clock)
    requires Settled(g, dist, queue, visited) && u in dist
    requires multiset(rest.items) + multiset{(dist[u], u)} == multiset(queue.items)
    ensures SearchInv(g, start, dist', pred') && QueueInv(dist', queue') && Ranked(dist', pred', stamp', clock')
    ensures Settled(g, dist', queue', visited + {u})
  {
    dist', pred', queue', stamp', clock' := RelaxNeighbors(g, start, u, dist, pred, rest, stamp, clock);
    VisitSettled(g, dist, queue, rest, visited, u, dist', queue');
  }

  /** One pass of the `dijkstra` loop body; `found` is its `break` on
      popping `end`. */
  method SearchStep(g: Graph, start: Node, end: Node, dist: map<Node, nat>, pred: map<Node, Node>,
                    queue: MinHeap.MinHeap<Entry>, visited: set<Node>, ghost stamp: map<Node, nat>, ghost clock: nat)
    returns (dist': map<Node, nat>, pred': map<Node, Node>, queue': MinHeap.MinHeap<Entry>, visited': set<Node>,
             found: bool, ghost stamp': map<Node, nat>, ghost clock': nat)
    requires WellFormed(g) && !MinHeap.IsEmpty(queue)
    requires SearchInv(g, start, dist, pred) && QueueInv(dist, queue) && Ranked(dist, pred, stamp, clock)
    requires Settled(g, dist, queue, visited)
    ensures SearchInv(g, start, dist', pred') && QueueInv(dist', queue') && Ranked(dist', pred', stamp', clock')
    ensures found ==> end in dist'
    ensures !found ==> (Settled(g, dist', queue', visited') &&
      (|g.Keys - visited'| < |g.Keys - visited| || (visited' == visited && MinHeap.Size(queue') < MinHeap.Size(queue))))
  {
    PopQueue(dist, queue);
    var popped := MinHeap.Pop(EntryLe, queue);
    var d, u := popped.value.0.0, popped.value.0.1;
    dist', pred', queue', visited', found, stamp', clock' := dist, pred, popped.value.1, visited, false, stamp, clock;
    if u == end {
      found := true;
      return;
    }
    if u in visited {
      SkipSettled(g, dist, queue, queue', visited, d, u);
      return;
    }
    if u in dist && d > dist[u] {
      SkipSettled(g, dist, queue, queue', visited, d, u);
      return;
    }
    visited' := visited + {u};
    Shrink(g.Keys, visited, u);
    dist', pred', queue', stamp', clock' := Visit(g, start, u, dist, pred, queue, queue', visited, stamp, clock);
  }

  /** The main loop of `dijkstra`: pop entries until `end` is popped or
      the queue is empty, skipping visited nodes and stale entries.  It
      records `end` whenever `end` is reachable. */
  method SearchLoop(g: Graph, start: Node, end: Node)
    returns (dist: map<Node, nat>, pred: map<Node, Node>, ghost stamp: map<Node, nat>)
    requires WellFormed(g) && start in g
    ensures SearchInv(g, start, dist, pred) && Ordered(dist, pred, stamp)
    ensures Reachable(g, start, end) ==> end in dist
  {
    dist := map[start := 0];
    pred := map[];
    var queue := MinHeap.Push(EntryLe, MinHeap.Empty(), (0, start));
    var visited: set<Node> := {};
    stamp := map[start := 0];
    ghost var clock: nat := 1;
    WalkSelf(g, start);
    assert (0, start) in multiset(queue.items);
    while !MinHeap.IsEmpty(queue)
      invariant SearchInv(g, start, dist, pred) && QueueInv(dist, queue) && Ranked(dist, pred, stamp, clock)
      invariant Settled(g, dist, queue, visited)
      decreases |g.Keys - visited|, MinHeap.Size(queue)
    {
      var found;
      dist, pred, queue, visited, found, stamp, clock := SearchStep(g, start, end, dist, pred, queue, visited, stamp, clock);
      if found {
        return;
      }
    }
    if Reachable(g, start, end) {
      Exhausted(g, start, dist, queue, visited, end);
    }
  }

  /** `dijkstra(start, end)`: `ValueError` for a node outside the graph;
      `(0, [start])` when both ends coincide; `(Inf, [])` exactly when
      `end` is unreachable; otherwise the recorded distance and a path of
      graph edges from `start` to `end`. */
  method Dijkstra(g: Graph, start: Node, end: Node) returns (r: Result<(Dist, seq<Node>)>)
    requires WellFormed(g)
    ensures start !in g || end !in g ==> r == Err(ValueError)
    ensures start in g && start == end ==> r == Ok((Fin(0), [start]))
    ensures r.Err? ==> r.error == ValueError
    ensures r.Ok? ==> (r.value.0.Inf? <==> r.value.1 == [])
    ensures r.Ok? && r.value.1 != [] ==>
      r.value.1[0] == start && r.value.1[|r.value.1| - 1] == end && IsPath(g, r.value.1)
    ensures r.Ok? && r.value.0.Fin? ==> Walk(g, start, end, r.value.0.n)
    ensures start in g && end in g && !Reachable(g, start, end) ==> r == Ok((Inf, []))
    ensures start in g && end in g && Reachable(g, start, end) ==> r.Ok? && r.value.0.Fin? && r.value.1 != []
  {
    if start !in g || end !in g {
      return Err(ValueError);
    }
    if start == end {
      return Ok((Fin(0), [start]));
    }
    var dist, pred, stamp := SearchLoop(g, start, end);
    if end in dist {
      WalkReachable(g, start, end, dist[end]);
    }
    if end !in dist {
      return Ok((Inf, []));
    }
    // A recorded end other than the start has a predecessor, and the
    // ranking rules out both guards of `_reconstruct_path`.
    forall v | v in dist
      ensures v in g.Keys
    {
    }
    assert end in pred;
    var path := ReconstructPath(g, pred, start, end, dist, stamp);
    assert path.Ok? && path.value != [];
    var p := path.value;
    PredChain(g, start, dist, pred, p);
    return Ok((Fin(dist[end]), p));
  }

  /** A predecessor chain ending in a recorded node is a path from `start`. */
  lemma PredChain(g: Graph, start: Node, dist: map<Node, nat>, pred: map<Node, Node>, p: seq<Node>)
    requires SearchInv(g, start, dist, pred)
    requires p != [] && p[|p| - 1] in dist && p[0] !in pred
    requires forall i :: 1 <= i < |p| ==> p[i] in pred && pred[p[i]] == p[i - 1]
    ensures p[0] == start && IsPath(g, p)
  {
    if |p| > 1 {
      assert p[0] == pred[p[1]];
    }
    forall i | 0 <= i < |p| - 1
      ensures IsEdge(g, p[i], p[i + 1])
    {
      assert pred[p[i + 1]] == p[i];
    }
  }

  // ---------------------------------------------------------------------
  // `_dijkstra_multi_target`
  // ---------------------------------------------------------------------

  /** The targets that were matched to a node of the graph. */
  function ValidTargets(g: Graph, targets: seq<Option<Node>>): set<Node>
  {
    set i | 0 <= i < |targets| && targets[i].Some? && targets[i].value in g :: targets[i].value
  }

  /** Popping keeps the queue invariant and yields a recorded node whose
      recorded distance is at most the popped one. */
  lemma PopQueue(dist: map<Node, nat>, queue: MinHeap.MinHeap<Entry>)
    requires QueueInv(dist, queue) && !MinHeap.IsEmpty(queue)
    ensures var p := MinHeap.Pop(EntryLe, queue);
      p.Ok? && QueueInv(dist, p.value.1) && p.value.0.1 in dist && dist[p.value.0.1] <= p.value.0.0 &&
      MinHeap.Size(p.value.1) < MinHeap.Size(queue)
  {
    var p := MinHeap.Pop(EntryLe, queue);
    assert p.value.0 in multiset(queue.items);
  }

  lemma Shrink(all: set<Node>, done: set<Node>, u: Node)
    requires u in all && u !in done
    ensures |all - (done + {u})| < |all - done|
  {
    assert all - done == (all - (done + {u})) + {u};
  }

  /** Every settled target is valid and carries the weight of a path. */
  ghost predicate FoundOk(g: Graph, start: Node, valid: set<Node>, found: map<Node, nat>)
  {
    found.Keys <= valid && forall t :: t in found ==> Walk(g, start, t, found[t])
  }

  lemma FoundUpdate(g: Graph, start: Node, valid: set<Node>, dist: map<Node, nat>, pred: map<Node, Node>,
                    found: map<Node, nat>, u: Node, found': map<Node, nat>)
    requires SearchInv(g, start, dist, pred) && u in dist && u in valid
    requires FoundOk(g, start, valid, found) && found' == found[u := dist[u]]
    ensures FoundOk(g, start, valid, found')
  {
  }

  /** A settled node that is a valid target gets its distance recorded. */
  method RecordTarget(g: Graph, start: Node, valid: set<Node>, dist: map<Node, nat>, pred: map<Node, Node>,
                      found: map<Node, nat>, u: Node) returns (found': map<Node, nat>)
    requires SearchInv(g, start, dist, pred) && u in dist && FoundOk(g, start, valid, found)
    ensures FoundOk(g, start, valid, found')
    ensures found'.Keys == if u in valid then found.Keys + {u} else found.Keys
  {
    found' := found;
    if u in valid {
      found' := found[u := dist[u]];
      FoundUpdate(g, start, valid, dist, pred, found, u, found');
    }
  }

  /** Every visited valid target has been recorded. */
  ghost predicate Hits(valid: set<Node>, visited: set<Node>, found: map<Node, nat>)
  {
    forall v :: v in visited && v in valid ==> v in found
  }

  /** Among subsets, fewer elements means a proper subset. */
  lemma {:induction false} SmallerSubset(a: set<Node>, b: set<Node>)
    requires a <= b
    ensures |a| < |b| <==> a != b
    decreases |a|
  {
    if a != {} {
      Pick(a);
      var x :| x in a;
      SmallerSubset(a - {x}, b - {x});
      assert a == (a - {x}) + {x} && b == (b - {x}) + {x};
    }
  }

  /** Pop the queue's least entry; `live` tells whether it names an
      unvisited node at its current distance, which the search then visits,
      rather than a visited node or a stale entry, which it skips. */
  method PopFresh(g: Graph, start: Node, dist: map<Node, nat>, pred: map<Node, Node>,
                  queue: MinHeap.MinHeap<Entry>, visited: set<Node>)
    returns (u: Node, rest: MinHeap.MinHeap<Entry>, live: bool)
    requires WellFormed(g) && !MinHeap.IsEmpty(queue)
    requires SearchInv(g, start, dist, pred) && QueueInv(dist, queue) && Settled(g, dist, queue, visited)
    ensures QueueInv(dist, rest) && MinHeap.Size(rest) < MinHeap.Size(queue)
    ensures !live ==> Settled(g, dist, rest, visited)
    ensures live ==> (u in dist && u !in visited &&
      multiset(rest.items) + multiset{(dist[u], u)} == multiset(queue.items))
  {
    PopQueue(dist, queue);
    var popped := MinHeap.Pop(EntryLe, queue);
    var d := popped.value.0.0;
    u, rest, live := popped.value.0.1, popped.value.1, false;
    if u in visited || (u in dist && d > dist[u]) {
      SkipSettled(g, dist, queue, rest, visited, d, u);
      return;
    }
    live := true;
  }

  /** One pass of the `_dijkstra_multi_target` loop body; `stop` is its
      `break` once every valid target is settled. */
  method MultiTargetStep(g: Graph, start: Node, valid: set<Node>, dist: map<Node, nat>, pred: map<Node, Node>,
                         queue: MinHeap.MinHeap<Entry>, visited: set<Node>, found: map<Node, nat>,
                         ghost stamp: map<Node, nat>, ghost clock: nat)
    returns (dist': map<Node, nat>, pred': map<Node, Node>, queue': MinHeap.MinHeap<Entry>, visited': set<Node>,
             found': map<Node, nat>, stop: bool, ghost stamp': map<Node, nat>, ghost clock': nat)
    requires WellFormed(g) && start in g && !MinHeap.IsEmpty(queue)
    requires SearchInv(g, start, dist, pred) && QueueInv(dist, queue) && Ranked(dist, pred, stamp, clock)
    requires Settled(g, dist, queue, visited) && FoundOk(g, start, valid, found) && Hits(valid, visited, found)
    ensures SearchInv(g, start, dist', pred') && QueueInv(dist', queue') && Ranked(dist', pred', stamp', clock')
    ensures FoundOk(g, start, valid, found') && Hits(valid, visited', found')
    ensures stop ==> found'.Keys == valid
    ensures !stop ==> (Settled(g, dist', queue', visited') &&
      (|g.Keys - visited'| < |g.Keys - visited| || (visited' == visited && MinHeap.Size(queue') < MinHeap.Size(queue))))
  {
    var u, rest, live := PopFresh(g, start, dist, pred, queue, visited);
    dist', pred', queue', visited', found', stop, stamp', clock' :=
      dist, pred, rest, visited, found, false, stamp, clock;
    if !live {
      return;
    }
    visited' := visited + {u};
    Shrink(g.Keys, visited, u);
    found' := RecordTarget(g, start, valid, dist, pred, found, u);
    SmallerSubset(found'.Keys, valid);
    if |found'| == |valid| {
      stop := true;
      return;
    }
    dist', pred', queue', stamp', clock' := Visit(g, start, u, dist, pred, queue, queue', visited, stamp, clock);
  }

  /** The main loop of `_dijkstra_multi_target`: settle nodes in queue
      order until every valid target is settled or the queue is empty.
      Every valid target reachable from `start` is found. */
  method MultiTargetLoop(g: Graph, start: Node, valid: set<Node>) returns (found: map<Node, nat>)
    requires WellFormed(g) && start in g && valid <= g.Keys
    ensures FoundOk(g, start, valid, found)
    ensures forall t :: t in valid && Reachable(g, start, t) ==> t in found
  {
    var dist: map<Node, nat> := map[start := 0];
    // Predecessors are not kept by this search; the map only feeds the
    // shared relaxation step.
    var pred: map<Node, Node> := map[];
    var queue := MinHeap.Push(EntryLe, MinHeap.Empty(), (0, start));
    var visited: set<Node> := {};
    ghost var stamp: map<Node, nat> := map[start := 0];
    ghost var clock: nat := 1;
    found := map[];
    WalkSelf(g, start);
    assert (0, start) in multiset(queue.items);
    while !MinHeap.IsEmpty(queue) && |found| < |valid|
      invariant SearchInv(g, start, dist, pred) && QueueInv(dist, queue) && Ranked(dist, pred, stamp, clock)
      invariant FoundOk(g, start, valid, found) && Hits(valid, visited, found)
      invariant found.Keys == valid || Settled(g, dist, queue, visited)
      decreases |g.Keys - visited|, MinHeap.Size(queue)
    {
      SmallerSubset(found.Keys, valid);
      var stop;
      dist, pred, queue, visited, found, stop, stamp, clock :=
        MultiTargetStep(g, start, valid, dist, pred, queue, visited, found, stamp, clock);
      if stop {
        break;
      }
    }
    SmallerSubset(found.Keys, valid);
    if found.Keys != valid {
      forall t | t in valid && Reachable(g, start, t)
        ensures t in found
      {
        Exhausted(g, start, dist, queue, visited, t);
      }
    }
  }

  /** `_dijkstra_multi_target(start, targets)`: one search from `start` that
      stops once every valid target has been settled.  The result holds
      exactly the valid targets reachable from `start`, each with the
      weight of a path reaching it.  A `start` outside the graph fails
      when its neighbours are asked for. */
  method DijkstraMultiTarget(g: Graph, start: Node, targets: seq<Option<Node>>) returns (r: Result<map<Node, nat>>)
    requires WellFormed(g)
    ensures ValidTargets(g, targets) == {} ==> r == Ok(map[])
    ensures r.Err? <==> start !in g && ValidTargets(g, targets) != {}
    ensures r.Err? ==> r.error == ValueError
    ensures r.Ok? ==> forall t :: t in r.value <==> t in ValidTargets(g, targets) && Reachable(g, start, t)
    ensures r.Ok? ==> forall t :: t in r.value ==> Walk(g, start, t, r.value[t])
  {
    if targets == [] {
      return Ok(map[]);
    }
    var valid := ValidTargets(g, targets);
    if valid == {} {
      return Ok(map[]);
    }
    if start !in g {
      // `self.graph.neighbors(start)` raises once `start` is settled.
      return Err(ValueError);
    }
    var found := MultiTargetLoop(g, start, valid);
    forall t | t in found
      ensures Reachable(g, start, t)
    {
      WalkReachable(g, start, t, found[t]);
    }
    return Ok(found);
  }

  // ---------------------------------------------------------------------
  // Tour planning: `_calculate_tour_distance`, `_nearest_neighbor_tsp`,
  // `_two_opt_optimize`, `_construct_complete_path`
  // ---------------------------------------------------------------------

  /** The pairwise distances `_solve_tsp_improved` precomputes. */
  type Distances = map<(Node, Node), Dist>

  /** `distances.get((a, b), float('inf'))`. */
  function Leg(dm: Distances, a: Node, b: Node): Dist
  {
    if (a, b) in dm then dm[(a, b)] else Inf
  }

  function Add(x: Dist, y: Dist): Dist
  {
    if x.Inf? || y.Inf? then Inf else Fin(x.n + y.n)
  }

  /** `x < y` on floats where `Inf` is the largest value. */
  predicate Less(x: Dist, y: Dist)
  {
    x.Fin? && (y.Inf? || x.n < y.n)
  }

  predicate AtMost(x: Dist, y: Dist)
  {
    !Less(y, x)
  }

  /** The length of a tour: the sum of its legs, `Inf` once a leg is. */
  function TourDistance(dm: Distances, t: seq<Node>): Dist
    decreases |t|
  {
    if |t| < 2 then Fin(0)
    else Add(TourDistance(dm, t[..|t| - 1]), Leg(dm, t[|t| - 2], t[|t| - 1]))
  }

  /** A tour is infinitely long exactly when one of its legs is. */
  lemma {:induction false} TourDistanceInf(dm: Distances, t: seq<Node>)
    ensures TourDistance(dm, t).Inf? <==> exists i :: 0 <= i < |t| - 1 && Leg(dm, t[i], t[i + 1]).Inf?
    decreases |t|
  {
    if |t| >= 2 {
      var t' := t[..|t| - 1];
      TourDistanceInf(dm, t');
      forall i | 0 <= i < |t'| - 1
        ensures Leg(dm, t'[i], t'[i + 1]) == Leg(dm, t[i], t[i + 1])
      {
        assert t'[i] == t[i] && t'[i + 1] == t[i + 1];
      }
      if exists i :: 0 <= i < |t| - 1 && Leg(dm, t[i], t[i + 1]).Inf? {
        var i :| 0 <= i < |t| - 1 && Leg(dm, t[i], t[i + 1]).Inf?;
        if i < |t| - 2 {
          assert Leg(dm, t'[i], t'[i + 1]).Inf?;
        }
      }
    }
  }

  /** `_calculate_tour_distance(tour, distances)`: sums the legs in order
      and returns `Inf` at the first missing or infinite one. */
  method CalculateTourDistance(dm: Distances, t: seq<Node>) returns (r: Dist)
    ensures r == TourDistance(dm, t)
    ensures r.Inf? <==> exists i :: 0 <= i < |t| - 1 && Leg(dm, t[i], t[i + 1]).Inf?
  {
    TourDistanceInf(dm, t);
    var total: nat := 0;
    var i := 0;
    while i < |t| - 1
      invariant 0 <= i && (i < |t| || i == 0)
      invariant i < |t| ==> TourDistance(dm, t[..i + 1]) == Fin(total)
      invariant i == 0 ==> total == 0
      decreases |t| - i
    {
      var d := Leg(dm, t[i], t[i + 1]);
      if d.Inf? {
        return Inf;
      }
      assert t[..i + 2][..i + 1] == t[..i + 1];
      total := total + d.n;
      i := i + 1;
    }
    if |t| > 0 {
      assert t[..i + 1] == t;
    }
    return Fin(total);
  }

  /** The first candidate nearest to `current`; Python's `min` keeps the
      first of several equal keys. */
  function Nearest(dm: Distances, current: Node, cands: seq<Node>): (k: nat)
    requires cands != []
    ensures k < |cands|
    ensures forall i :: 0 <= i < |cands| ==> AtMost(Leg(dm, current, cands[k]), Leg(dm, current, cands[i]))
    ensures forall i :: 0 <= i < k ==> Less(Leg(dm, current, cands[k]), Leg(dm, current, cands[i]))
    decreases |cands|
  {
    if |cands| == 1 then 0
    else
      var k := Nearest(dm, current, cands[..|cands| - 1]);
      assert forall i :: 0 <= i < |cands| - 1 ==> cands[..|cands| - 1][i] == cands[i];
      if Less(Leg(dm, current, cands[|cands| - 1]), Leg(dm, current, cands[k])) then |cands| - 1 else k
  }

  predicate Distinct(s: seq<Node>)
  {
    forall i, j :: 0 <= i < j < |s| ==> s[i] != s[j]
  }

  /** `set(waypoints)`, kept in order of first occurrence. */
  function Dedup(s: seq<Node>): (r: seq<Node>)
    ensures Distinct(r) && forall x :: x in r <==> x in s
    decreases |s|
  {
    if s == [] then []
    else
      var r := Dedup(s[..|s| - 1]);
      assert forall x :: x in s <==> x in s[..|s| - 1] || x == s[|s| - 1] by {
        assert s == s[..|s| - 1] + [s[|s| - 1]];
      }
      if s[|s| - 1] in r then r else r + [s[|s| - 1]]
  }

  /** `s` without position `k`. */
  function Without(s: seq<Node>, k: nat): (r: seq<Node>)
    requires k < |s|
    ensures |r| == |s| - 1
    ensures multiset(r) + multiset{s[k]} == multiset(s)
  {
    assert s == s[..k] + [s[k]] + s[k + 1..];
    s[..k] + s[k + 1..]
  }

  lemma WithoutDistinct(s: seq<Node>, k: nat)
    requires k < |s| && Distinct(s)
    ensures Distinct(Without(s, k)) && s[k] !in Without(s, k)
  {
    var r := Without(s, k);
    assert forall i :: 0 <= i < |r| ==> r[i] == (if i < k then s[i] else s[i + 1]);
  }

  /** The greedy loop of `_nearest_neighbor_tsp`: repeatedly move to the
      nearest unvisited waypoint. */
  function NearestTour(dm: Distances, current: Node, unvisited: seq<Node>): (r: seq<Node>)
    ensures multiset(r) == multiset(unvisited)
    decreases |unvisited|
  {
    if unvisited == [] then []
    else
      var k := Nearest(dm, current, unvisited);
      [unvisited[k]] + NearestTour(dm, unvisited[k], Without(unvisited, k))
  }

  /** Each step goes to a nearest waypoint not yet visited. */
  ghost predicate Greedy(dm: Distances, current: Node, unvisited: seq<Node>, tour: seq<Node>)
  {
    forall i, x :: 0 <= i < |tour| && x in unvisited && x !in tour[..i] ==>
      AtMost(Leg(dm, ([current] + tour)[i], tour[i]), Leg(dm, ([current] + tour)[i], x))
  }

  lemma {:induction false} NearestTourDistinct(dm: Distances, current: Node, unvisited: seq<Node>)
    requires Distinct(unvisited)
    ensures Distinct(NearestTour(dm, current, unvisited))
    decreases |unvisited|
  {
    if unvisited != [] {
      var k := Nearest(dm, current, unvisited);
      var next := unvisited[k];
      var rest := Without(unvisited, k);
      var sub := NearestTour(dm, next, rest);
      assert [next] + sub == NearestTour(dm, current, unvisited);
      WithoutDistinct(unvisited, k);
      NearestTourDistinct(dm, next, rest);
      assert next !in sub by {
        assert multiset(sub) == multiset(rest);
        assert next !in multiset(rest);
      }
      ConsDistinct(next, sub);
    }
  }

  lemma ConsDistinct(x: Node, s: seq<Node>)
    requires x !in s && Distinct(s)
    ensures Distinct([x] + s)
  {
    var t := [x] + s;
    forall i, j | 0 <= i < j < |t|
      ensures t[i] != t[j]
    {
      if i == 0 {
        assert t[j] == s[j - 1];
      } else {
        assert t[i] == s[i - 1] && t[j] == s[j - 1];
      }
    }
  }

  lemma {:induction false} NearestTourGreedy(dm: Distances, current: Node, unvisited: seq<Node>)
    ensures Greedy(dm, current, unvisited, NearestTour(dm, current, unvisited))
    decreases |unvisited|
  {
    if unvisited != [] {
      var k := Nearest(dm, current, unvisited);
      var next := unvisited[k];
      var rest := Without(unvisited, k);
      var sub := NearestTour(dm, next, rest);
      var tour := [next] + sub;
      assert tour == NearestTour(dm, current, unvisited);
      NearestTourGreedy(dm, next, rest);
      forall i, x | 0 <= i < |tour| && x in unvisited && x !in tour[..i]
        ensures AtMost(Leg(dm, ([current] + tour)[i], tour[i]), Leg(dm, ([current] + tour)[i], x))
      {
        if i == 0 {
          var j :| 0 <= j < |unvisited| && unvisited[j] == x;
        } else {
          GreedyLater(dm, current, unvisited, k, sub, i, x);
        }
      }
    }
  }

  /** A later step of the greedy tour is a step of the tour from the first
      waypoint chosen. */
  lemma GreedyLater(dm: Distances, current: Node, unvisited: seq<Node>, k: nat, sub: seq<Node>, i: nat, x: Node)
    requires k < |unvisited| && 0 < i <= |sub|
    requires Greedy(dm, unvisited[k], Without(unvisited, k), sub)
    requires x in unvisited && x !in ([unvisited[k]] + sub)[..i]
    ensures AtMost(Leg(dm, ([current] + ([unvisited[k]] + sub))[i], ([unvisited[k]] + sub)[i]),
                   Leg(dm, ([current] + ([unvisited[k]] + sub))[i], x))
  {
    var next := unvisited[k];
    var tour := [next] + sub;
    assert ([current] + tour)[i] == ([next] + sub)[i - 1];
    assert tour[i] == sub[i - 1];
    assert tour[..i] == [next] + sub[..i - 1];
    assert x != next;
    assert x in Without(unvisited, k) by {
      assert x in multiset(unvisited);
    }
    assert x !in sub[..i - 1];
  }

  /** `_nearest_neighbor_tsp(start, waypoints, distances)`.  The candidates
      are visited in order of first occurrence, which stands for the
      iteration order of the set. */
  function NearestNeighborTsp(dm: Distances, start: Node, waypoints: seq<Node>): (r: seq<Node>)
    ensures r != [] && r[0] == start
  {
    [start] + NearestTour(dm, start, Dedup(waypoints))
  }

  /** The tour starts at `start` and then lists every distinct waypoint
      exactly once, each time the nearest one left. */
  lemma NearestNeighborSpec(dm: Distances, start: Node, waypoints: seq<Node>)
    ensures var r := NearestNeighborTsp(dm, start, waypoints);
      Distinct(r[1..]) && (forall x :: x in r[1..] <==> x in waypoints) &&
      Greedy(dm, start, Dedup(waypoints), r[1..])
  {
    var u := Dedup(waypoints);
    var r := NearestNeighborTsp(dm, start, waypoints);
    assert r[1..] == NearestTour(dm, start, u);
    NearestTourDistinct(dm, start, u);
    NearestTourGreedy(dm, start, u);
    assert multiset(r[1..]) == multiset(u);
    forall x
      ensures x in r[1..] <==> x in waypoints
    {
      assert x in r[1..] <==> x in multiset(r[1..]);
      assert x in u <==> x in multiset(u);
    }
  }

  lemma {:induction false} ReverseMultiset(s: seq<Node>)
    ensures multiset(Reverse(s)) == multiset(s)
    decreases |s|
  {
    if s != [] {
      ReverseMultiset(s[1..]);
      assert s == [s[0]] + s[1..];
    }
  }

  /** `tour[:i] + tour[i:j+1][::-1] + tour[j+1:]`. */
  function Reversal(t: seq<Node>, i: nat, j: nat): (r: seq<Node>)
    requires i <= j < |t|
    ensures |r| == |t| && multiset(r) == multiset(t) && r[..i] == t[..i]
  {
    var a, m, b := t[..i], t[i..j + 1], t[j + 1..];
    assert t == a + m + b;
    ReverseMultiset(m);
    Splice(a, m, Reverse(m), b);
    a + Reverse(m) + b
  }

  /** Replacing the middle of `a + m + b` by a rearrangement of it. */
  lemma Splice(a: seq<Node>, m: seq<Node>, m': seq<Node>, b: seq<Node>)
    requires |m'| == |m| && multiset(m') == multiset(m)
    ensures |a + m' + b| == |a + m + b| && multiset(a + m' + b) == multiset(a + m + b)
    ensures (a + m' + b)[..|a|] == a
  {
    assert (a + m' + b)[..|a|] == a;
  }

  /** One sweep of `_two_opt_optimize`: the first reversal, in the
      source's scan order from `(i, j)` on, that shortens the tour. */
  function FirstImprovement(dm: Distances, t: seq<Node>, i: nat, j: nat): (r: Option<seq<Node>>)
    requires 1 <= i < j
    ensures r.Some? ==> |t| > 2 && |r.value| == |t| && multiset(r.value) == multiset(t)
    ensures r.Some? ==> |t| > 2 && r.value[0] == t[0]
    ensures r.Some? ==> Less(TourDistance(dm, r.value), TourDistance(dm, t))
    ensures r.None? ==> NoBetterFrom(dm, t, i, j)
    decreases |t| - i, |t| - j
  {
    if i >= |t| - 1 then None
    else if j >= |t| then
      NextRow(dm, t, i, j);
      FirstImprovement(dm, t, i + 1, i + 2)
    else if j - i == 1 then
      NextColumn(dm, t, i, j);
      FirstImprovement(dm, t, i, j + 1)
    else
      var nt := Reversal(t, i, j);
      assert nt[0] == nt[..i][0];
      if Less(TourDistance(dm, nt), TourDistance(dm, t)) then Some(nt)
      else
        NextColumn(dm, t, i, j);
        FirstImprovement(dm, t, i, j + 1)
  }

  /** No reversal `(a, b)` at or after `(i, j)` in scan order shortens the
      tour. */
  ghost predicate NoBetterFrom(dm: Distances, t: seq<Node>, i: nat, j: nat)
  {
    forall a, b :: i <= a && a + 2 <= b < |t| && (a > i || b >= j) ==>
      !Less(TourDistance(dm, Reversal(t, a, b)), TourDistance(dm, t))
  }

  /** Past the end of row `i` the scan goes on with the next row. */
  lemma NextRow(dm: Distances, t: seq<Node>, i: nat, j: nat)
    requires j >= |t|
    ensures NoBetterFrom(dm, t, i + 1, i + 2) ==> NoBetterFrom(dm, t, i, j)
  {
  }

  /** The scan from `(i, j + 1)` covers that from `(i, j)` once `(i, j)`
      itself is ruled out. */
  lemma NextColumn(dm: Distances, t: seq<Node>, i: nat, j: nat)
    requires j < i + 2 || j >= |t| || !Less(TourDistance(dm, Reversal(t, i, j)), TourDistance(dm, t))
    ensures NoBetterFrom(dm, t, i, j + 1) ==> NoBetterFrom(dm, t, i, j)
  {
  }

  /** `_two_opt_optimize(tour, distances)`: apply first improvements until
      none is left.  The start stays first, the tour is a rearrangement of
      the input, it never gets longer, and no single reversal shortens the
      result. */
  function TwoOptOptimize(dm: Distances, t: seq<Node>): (r: seq<Node>)
    ensures |r| == |t| && multiset(r) == multiset(t) && (|t| > 0 ==> r[0] == t[0])
    ensures AtMost(TourDistance(dm, r), TourDistance(dm, t))
    ensures forall a, b :: 1 <= a && a + 2 <= b < |r| ==> !Less(TourDistance(dm, Reversal(r, a, b)), TourDistance(dm, r))
    decreases if TourDistance(dm, t).Inf? then 1 else 0, if TourDistance(dm, t).Fin? then TourDistance(dm, t).n else 0
  {
    match FirstImprovement(dm, t, 1, 2)
    case None => t
    case Some(nt) => TwoOptOptimize(dm, nt)
  }

  /** `paths.get((a, b), [])`. */
  function Segment(paths: map<(Node, Node), seq<Node>>, a: Node, b: Node): seq<Node>
  {
    if (a, b) in paths then paths[(a, b)] else []
  }

  /** `_construct_complete_path(tour, paths)`: `IndexError` for an empty
      tour, `ValueError` when a leg has no path; otherwise the legs' paths
      joined without repeating shared endpoints, and the number of hops. */
  function ConstructCompletePath(tour: seq<Node>, paths: map<(Node, Node), seq<Node>>): (r: Result<(nat, seq<Node>)>)
    ensures tour == [] ==> r == Err(IndexError)
    ensures tour != [] ==> (r.Ok? <==> forall i :: 0 <= i < |tour| - 1 ==> Segment(paths, tour[i], tour[i + 1]) != [])
    ensures tour != [] && r.Err? ==> r.error == ValueError
    ensures r.Ok? ==> r.value.1 != [] && r.value.1[0] == tour[0] && r.value.0 == |r.value.1| - 1
    decreases |tour|
  {
    if tour == [] then Err(IndexError)
    else if |tour| == 1 then Ok((0, [tour[0]]))
    else
      var front := tour[..|tour| - 1];
      assert forall i :: 0 <= i < |front| ==> front[i] == tour[i];
      match ConstructCompletePath(front, paths)
      case Err(e) => Err(e)
      case Ok((total, path)) =>
        var seg := Segment(paths, tour[|tour| - 2], tour[|tour| - 1]);
        if seg == [] then Err(ValueError) else Ok((total + |seg| - 1, path + seg[1..]))
  }

  /** Every recorded path runs along graph edges between its two keys. */
  ghost predicate PathsOk(g: Graph, paths: map<(Node, Node), seq<Node>>)
  {
    forall k :: k in paths && paths[k] != [] ==>
      paths[k][0] == k.0 && paths[k][|paths[k]| - 1] == k.1 && IsPath(g, paths[k])
  }

  lemma PathConcat(g: Graph, p: seq<Node>, q: seq<Node>)
    requires p != [] && q != [] && IsPath(g, p) && IsPath(g, q) && p[|p| - 1] == q[0]
    ensures IsPath(g, p + q[1..])
  {
    var r := p + q[1..];
    forall i | 0 <= i < |r| - 1
      ensures IsEdge(g, r[i], r[i + 1])
    {
      if i < |p| - 1 {
        assert r[i] == p[i] && r[i + 1] == p[i + 1];
      } else {
        var k := i - (|p| - 1);
        assert r[i] == q[k] && r[i + 1] == q[k + 1];
      }
    }
  }

  /** With recorded graph paths for every leg, the joined path runs along
      graph edges from the first to the last tour node and passes every
      tour node. */
  lemma {:induction false} CompletePathSpec(g: Graph, tour: seq<Node>, paths: map<(Node, Node), seq<Node>>)
    requires PathsOk(g, paths) && ConstructCompletePath(tour, paths).Ok?
    ensures var p := ConstructCompletePath(tour, paths).value.1;
      IsPath(g, p) && p[|p| - 1] == tour[|tour| - 1] && forall x :: x in tour ==> x in p
    decreases |tour|
  {
    if |tour| == 1 {
      assert IsPath(g, [tour[0]]);
    } else {
      var front := tour[..|tour| - 1];
      var a, b := tour[|tour| - 2], tour[|tour| - 1];
      CompletePathSpec(g, front, paths);
      var path := ConstructCompletePath(front, paths).value.1;
      var seg := Segment(paths, a, b);
      assert seg != [];
      assert (a, b) in paths;
      assert seg[0] == a && seg[|seg| - 1] == b && IsPath(g, seg);
      var p := path + seg[1..];
      assert ConstructCompletePath(tour, paths).value.1 == p;
      assert front[|front| - 1] == a;
      PathConcat(g, path, seg);
      if |seg| == 1 {
        assert p == path;
        assert p[|p| - 1] == b;
      } else {
        assert p[|p| - 1] == seg[|seg| - 1];
      }
      forall x | x in tour
        ensures x in p
      {
        var i :| 0 <= i < |tour| && tour[i] == x;
        if i < |tour| - 1 {
          assert x in front by {
            assert front[i] == x;
          }
        } else {
          assert x == p[|p| - 1];
        }
      }
    }
  }

  // ---------------------------------------------------------------------
  // `_solve_tsp_improved`, `plan_route`
  // ---------------------------------------------------------------------

  /** Every point is a node of the graph and reaches every point. */
  ghost predicate Connected(g: Graph, pts: seq<Node>)
  {
    (forall i :: 0 <= i < |pts| ==> pts[i] in g) &&
    forall i, j :: 0 <= i < |pts| && 0 <= j < |pts| ==> Reachable(g, pts[i], pts[j])
  }

  /** The pairs of distinct positions of `all` before `(i, j)` in scan
      order have a recorded path. */
  ghost predicate PairsDone(all: seq<Node>, paths: map<(Node, Node), seq<Node>>, i: int, j: int)
  {
    forall a, b :: 0 <= a < |all| && 0 <= b < |all| && a != b && (a < i || (a == i && b < j)) ==>
      Segment(paths, all[a], all[b]) != []
  }

  /** A distinct sequence holds each value at most once. */
  lemma {:induction false} DistinctCount(s: seq<Node>, x: Node)
    requires Distinct(s)
    ensures multiset(s)[x] <= 1
    decreases |s|
  {
    if s != [] {
      var rest := s[1..];
      assert s == [s[0]] + rest;
      assert Distinct(rest) by {
        forall i, j | 0 <= i < j < |rest|
          ensures rest[i] != rest[j]
        {
          assert rest[i] == s[i + 1] && rest[j] == s[j + 1];
        }
      }
      DistinctCount(rest, x);
      if s[0] == x {
        assert x !in rest by {
          forall i | 0 <= i < |rest|
            ensures rest[i] != x
          {
            assert rest[i] == s[i + 1];
          }
        }
      }
    }
  }

  /** Every leg of a rearranged nearest-neighbour tour joins the values at
      two different positions of `[start] + waypoints`.  A leg from a node
      to itself needs that node twice in the tour, which only the start
      can be, and then only when it is also a waypoint. */
  lemma TourLegs(start: Node, waypoints: seq<Node>, t: seq<Node>, k: nat)
    requires multiset(t) == multiset{start} + multiset(Dedup(waypoints)) && k + 1 < |t|
    ensures exists a, b :: (0 <= a < |[start] + waypoints| && 0 <= b < |[start] + waypoints| && a != b &&
      ([start] + waypoints)[a] == t[k] && ([start] + waypoints)[b] == t[k + 1])
  {
    var all := [start] + waypoints;
    var x, y := t[k], t[k + 1];
    assert x in multiset(t) && y in multiset(t);
    var a := Position(start, waypoints, x);
    var b := Position(start, waypoints, y);
    if x == y {
      var m := RepeatedLeg(start, waypoints, t, k);
      assert all[0] == x && all[m + 1] == x;
    } else {
      assert all[a] == x && all[b] == y;
    }
  }

  /** A leg from a node to itself: that node is the start and a waypoint. */
  lemma RepeatedLeg(start: Node, waypoints: seq<Node>, t: seq<Node>, k: nat) returns (m: nat)
    requires multiset(t) == multiset{start} + multiset(Dedup(waypoints)) && k + 1 < |t| && t[k] == t[k + 1]
    ensures t[k] == start && m < |waypoints| && waypoints[m] == start
  {
    var x := t[k];
    assert t == t[..k] + [x, x] + t[k + 2..];
    assert multiset(t)[x] >= 2;
    DistinctCount(Dedup(waypoints), x);
    assert x in Dedup(waypoints);
    var i :| 0 <= i < |waypoints| && waypoints[i] == x;
    m := i;
  }

  /** A position of a value among `[start] + waypoints`. */
  lemma Position(start: Node, waypoints: seq<Node>, x: Node) returns (a: nat)
    requires x in multiset{start} + multiset(Dedup(waypoints))
    ensures a < |[start] + waypoints| && ([start] + waypoints)[a] == x
  {
    if x == start {
      a := 0;
    } else {
      assert x in Dedup(waypoints);
      var m :| 0 <= m < |waypoints| && waypoints[m] == x;
      a := m + 1;
    }
  }

  /** The precomputation of `_solve_tsp_improved`: a `dijkstra` call for
      every ordered pair of distinct positions, keyed by the two nodes.  An
      endpoint outside the graph raises `ValueError`; between mutually
      reachable points every pair gets a path. */
  method AllPairs(g: Graph, all: seq<Node>) returns (r: Result<(Distances, map<(Node, Node), seq<Node>>)>)
    requires WellFormed(g)
    ensures r.Err? ==> r.error == ValueError
    ensures r.Ok? ==> PathsOk(g, r.value.1)
    ensures Connected(g, all) ==> r.Ok? && PairsDone(all, r.value.1, |all|, 0)
  {
    ghost var conn := Connected(g, all);
    var dm: Distances := map[];
    var paths: map<(Node, Node), seq<Node>> := map[];
    for i := 0 to |all|
      invariant PathsOk(g, paths)
      invariant conn ==> PairsDone(all, paths, i, 0)
    {
      var row := PairsFrom(g, all, i, dm, paths);
      if row.Err? {
        return Err(row.error);
      }
      dm, paths := row.value.0, row.value.1;
      if conn {
        NextPairRow(all, paths, i);
      }
    }
    return Ok((dm, paths));
  }

  /** The inner loop of the precomputation: the pairs starting at
      position `i`. */
  method PairsFrom(g: Graph, all: seq<Node>, i: nat, dm: Distances, paths: map<(Node, Node), seq<Node>>)
    returns (r: Result<(Distances, map<(Node, Node), seq<Node>>)>)
    requires WellFormed(g) && i < |all| && PathsOk(g, paths)
    ensures r.Err? ==> r.error == ValueError
    ensures r.Ok? ==> PathsOk(g, r.value.1)
    ensures Connected(g, all) && PairsDone(all, paths, i, 0) ==> r.Ok? && PairsDone(all, r.value.1, i, |all|)
  {
    ghost var conn := Connected(g, all) && PairsDone(all, paths, i, 0);
    var dm', paths' := dm, paths;
    for j := 0 to |all|
      invariant PathsOk(g, paths')
      invariant conn ==> PairsDone(all, paths', i, j)
    {
      if i != j {
        var res := Dijkstra(g, all[i], all[j]);
        if res.Err? {
          return Err(res.error);
        }
        if conn {
          NextPair(all, paths', i, j, res.value.1);
        }
        dm' := dm'[(all[i], all[j]) := res.value.0];
        paths' := paths'[(all[i], all[j]) := res.value.1];
      }
    }
    return Ok((dm', paths'));
  }

  lemma NextPair(all: seq<Node>, paths: map<(Node, Node), seq<Node>>, i: nat, j: nat, p: seq<Node>)
    requires i < |all| && j < |all| && i != j && PairsDone(all, paths, i, j) && p != []
    ensures PairsDone(all, paths[(all[i], all[j]) := p], i, j + 1)
  {
  }

  lemma NextPairRow(all: seq<Node>, paths: map<(Node, Node), seq<Node>>, i: nat)
    requires PairsDone(all, paths, i, |all|)
    ensures PairsDone(all, paths, i + 1, 0)
  {
  }

  /** Once every pair of distinct positions has a path, so does every leg
      of the improved tour. */
  lemma LegsRecorded(start: Node, waypoints: seq<Node>, t: seq<Node>, paths: map<(Node, Node), seq<Node>>)
    requires PairsDone([start] + waypoints, paths, |[start] + waypoints|, 0)
    requires multiset(t) == multiset{start} + multiset(Dedup(waypoints))
    ensures forall k :: 0 <= k < |t| - 1 ==> Segment(paths, t[k], t[k + 1]) != []
  {
    forall k | 0 <= k < |t| - 1
      ensures Segment(paths, t[k], t[k + 1]) != []
    {
      TourLegs(start, waypoints, t, k);
    }
  }

  /** `_solve_tsp_improved(start, waypoints)`: shortest paths between every
      ordered pair of distinct positions, a nearest-neighbour tour improved
      by 2-opt, and the stitched path.  The result starts at `start`, runs
      along graph edges and passes every waypoint; it exists whenever the
      points are mutually reachable. */
  method SolveTsp(g: Graph, start: Node, waypoints: seq<Node>) returns (r: Result<(nat, seq<Node>)>)
    requires WellFormed(g)
    ensures r.Err? ==> r.error == ValueError
    ensures r.Ok? ==> var p := r.value.1;
      p != [] && p[0] == start && IsPath(g, p) && r.value.0 == |p| - 1 &&
      forall w :: w in waypoints ==> w in p
    ensures Connected(g, [start] + waypoints) ==> r.Ok?
  {
    var all := [start] + waypoints;
    var pairs := AllPairs(g, all);
    if pairs.Err? {
      return Err(pairs.error);
    }
    var (dm, paths) := pairs.value;
    var tour := NearestNeighborTsp(dm, start, waypoints);
    var improved := TwoOptOptimize(dm, tour);
    if Connected(g, all) {
      LegsRecorded(start, waypoints, improved, paths);
    }
    var res := ConstructCompletePath(improved, paths);
    if res.Err? {
      return Err(ValueError);
    }
    CompletePathSpec(g, improved, paths);
    NearestNeighborSpec(dm, start, waypoints);
    forall w | w in waypoints
      ensures w in res.value.1
    {
      assert w in tour[1..];
      assert w in multiset(improved);
    }
    return res;
  }

  /** Every point was matched to a node, and each reaches every other. */
  ghost predicate AllConnected(g: Graph, nodes: seq<Option<Node>>)
  {
    (forall i :: 0 <= i < |nodes| ==> nodes[i].Some? && nodes[i].value in g) &&
    forall i, j :: 0 <= i < |nodes| && 0 <= j < |nodes| ==> Reachable(g, nodes[i].value, nodes[j].value)
  }

  /** `plan_route(coordinates)`, given the node each coordinate was matched
      to (`None` when it matched none): `ValueError` for fewer than two
      points or an unmatched one; a single waypoint is a plain `dijkstra`
      call; more go through `_solve_tsp_improved`.  A returned path starts
      at the first point, runs along graph edges and passes every other
      point; there is one whenever the points are mutually reachable. */
  method PlanRoute(g: Graph, nodes: seq<Option<Node>>) returns (r: Result<(Dist, seq<Node>)>)
    requires WellFormed(g)
    ensures |nodes| < 2 ==> r == Err(ValueError)
    ensures (exists i :: 0 <= i < |nodes| && nodes[i].None?) ==> r == Err(ValueError)
    ensures r.Err? ==> r.error == ValueError
    ensures r.Ok? && r.value.1 != [] ==> var p := r.value.1;
      nodes[0] == Some(p[0]) && IsPath(g, p) &&
      forall i :: 1 <= i < |nodes| ==> nodes[i].Some? && nodes[i].value in p
    ensures |nodes| >= 2 && AllConnected(g, nodes) ==> r.Ok? && r.value.0.Fin? && r.value.1 != []
  {
    if |nodes| < 2 {
      return Err(ValueError);
    }
    if exists i :: 0 <= i < |nodes| && nodes[i].None? {
      return Err(ValueError);
    }
    var start := nodes[0].value;
    var waypoints := seq(|nodes| - 1, i requires 0 <= i < |nodes| - 1 => nodes[i + 1].value);
    if |waypoints| == 1 {
      r := Dijkstra(g, start, waypoints[0]);
      if r.Ok? && r.value.1 != [] {
        assert nodes[1].value == r.value.1[|r.value.1| - 1];
      }
      return;
    }
    assert forall i :: 0 <= i < |nodes| ==> ([start] + waypoints)[i] == nodes[i].value;
    var res := SolveTsp(g, start, waypoints);
    if res.Err? {
      return Err(res.error);
    }
    forall i | 1 <= i < |nodes|
      ensures nodes[i].value in res.value.1
    {
      assert waypoints[i - 1] == nodes[i].value;
    }
    return Ok((Fin(res.value.0), res.value.1));
  }
}
