/**
 * The pure-Python searches (`astar_path` and `dijkstra_path`): a binary heap of `(priority, node)` tuples
 * with a companion set `open_set_hash`, the dictionaries `g_score` and `came_from`, and a counter of heap
 * pops. Both are one search here, told apart by the heuristic (Dijkstra's is zero) and by whether a popped
 * entry whose priority exceeds the recorded cost is skipped (only Dijkstra skips).
 *
 * The step function is total: what raises in Python (`graph.neighbors` of a node outside the graph, a
 * missing dictionary key) is the outcome `Raised`. The search loop and the `came_from` walk are bounded by
 * fuel; `OutOfFuel` says the bound ran out.
 */
module HeapSearch {
  import opened Wrappers
  import opened RoadGraph

  /** A heap tuple `(priority, node)`. */
  datatype Entry = Entry(f: real, node: NodeId)

  /** Python's tuple order: priority first, then node id. */
  predicate NoLater(a: Entry, b: Entry) {
    a.f < b.f || (a.f == b.f && a.node <= b.node)
  }

  /** The position of the entry `heappop` returns: one that no entry precedes. */
  function MinAt(heap: seq<Entry>): (i: nat)
    requires heap != []
    ensures i < |heap| && forall j :: 0 <= j < |heap| ==> NoLater(heap[i], heap[j])
  {
    if |heap| == 1 then 0
    else
      var k := MinAt(heap[1..]);
      assert forall j :: 1 <= j < |heap| ==> heap[j] == heap[1..][j - 1];
      if NoLater(heap[0], heap[1..][k]) then 0 else k + 1
  }

  /** The heap without its `i`-th entry. */
  function Without(heap: seq<Entry>, i: nat): (r: seq<Entry>)
    requires i < |heap|
    ensures |r| == |heap| - 1
    ensures forall j :: 0 <= j < |r| ==> r[j] == if j < i then heap[j] else heap[j + 1]
  {
    heap[..i] + heap[i + 1..]
  }

  /** The nodes that have an entry in the heap. */
  ghost function HeapNodes(heap: seq<Entry>): set<NodeId> {
    set e | e in heap :: e.node
  }

  /** No node has two entries in the heap. */
  predicate NoTwice(heap: seq<Entry>) {
    forall i, j :: 0 <= i < j < |heap| ==> heap[i].node != heap[j].node
  }

  /** `g_score` plus an edge weight; infinity stays infinity. */
  function Plus(d: Dist, w: real): Dist {
    match d
    case Fin(x) => Fin(x + w)
    case Inf => Inf
  }

  /** `current_g_score > g_score[current]`, with the comparison against infinity false. */
  predicate Exceeds(f: real, d: Dist) {
    d.Fin? && f > d.val
  }

  /** The search state: the heap, `open_set_hash`, `came_from`, `g_score` and `nodes_visited`, plus bookkeeping
      that only the proofs read: `stamp[v]` is the moment `g_score[v]` last changed (0 when never) and
      `clock` the next moment. */
  datatype State = State(heap: seq<Entry>, hash: set<NodeId>, cameFrom: map<NodeId, NodeId>,
                         g: map<NodeId, Dist>, visited: nat, stamp: map<NodeId, nat>, clock: nat)

  function StampOf(st: State, v: NodeId): nat {
    if v in st.stamp then st.stamp[v] else 0
  }

  /** What a search returns: `(path, nodes_visited)`, `(None, nodes_visited)`, an escaping exception, or the
      model's step bound running out. */
  datatype Outcome = Found(path: seq<NodeId>, visited: nat) | NoPath(visited: nat) | Raised | OutOfFuel

  /** Either the loop goes on from a new state or the search has returned. */
  datatype Next = Continue(st: State) | Done(r: Outcome)

  /** Dijkstra's heuristic. */
  function Zero(v: NodeId): real {
    0.0
  }

  // ---------------------------------------------------------------------------------------
  // The search

  /** `{node: inf for node in graph.nodes}` with `g_score[start] = 0`, and the heap holding `(h(start), start)`. */
  function Init(graph: Graph, h: NodeId -> real, start: NodeId): (st: State)
    ensures st.heap == [Entry(h(start), start)] && st.hash == {start} && st.cameFrom == map[] && st.visited == 0
    ensures forall v :: v in st.g <==> v == start || HasNode(graph, v)
    ensures forall v :: v in st.g ==> st.g[v] == if v == start then Fin(0.0) else Inf
  {
    var g := map id | id in Ids(graph.nodes) :: Inf;
    State([Entry(h(start), start)], {start}, map[], g[start := Fin(0.0)], 0, map[], 1)
  }

  /** One neighbour of the inner loop: pick the least-key parallel edge, pay its key (missing = 0), and on an
      improvement record the predecessor and the cost, pushing the neighbour unless it already has an entry.
      None is an exception: a missing `g_score` entry, or no (or empty) edge data. */
  function RelaxOne(graph: Graph, key: string, h: NodeId -> real, st: State, u: NodeId, v: NodeId): Option<State> {
    var data := EdgesBetween(graph, u, v);
    if u !in st.g || data.None? || data.value == [] then None
    else
      var t := Plus(st.g[u], EdgeCost(data.value, key));
      var known := if v in st.g then st.g[v] else Inf;
      if t.Fin? && Improves(t.val, known) then
        var st' := st.(cameFrom := st.cameFrom[v := u], g := st.g[v := t], stamp := st.stamp[v := st.clock],
                       clock := st.clock + 1);
        if v in st.hash then Some(st')
        else Some(st'.(heap := st.heap + [Entry(t.val + h(v), v)], hash := st.hash + {v}))
      else Some(st)
  }

  /** `for neighbor in graph.neighbors(current)`: relax each neighbour in order. */
  function RelaxAll(graph: Graph, key: string, h: NodeId -> real, st: State, u: NodeId, nbs: seq<NodeId>): Option<State>
    decreases |nbs|
  {
    if nbs == [] then Some(st)
    else
      match RelaxOne(graph, key, h, st, u, nbs[0])
      case None => None
      case Some(st') => RelaxAll(graph, key, h, st', u, nbs[1..])
  }

  /** `while current in came_from`: the nodes met walking `came_from` back from `v`, in forward order, without
      the node where the walk stops. None when the walk outlasts `fuel` steps. */
  function Backtrack(cameFrom: map<NodeId, NodeId>, v: NodeId, fuel: nat): Option<seq<NodeId>>
    decreases fuel
  {
    if v !in cameFrom then Some([])
    else if fuel == 0 then None
    else
      match Backtrack(cameFrom, cameFrom[v], fuel - 1)
      case None => None
      case Some(p) => Some(p + [v])
  }

  /** The entry `heappop` returns. */
  function Top(st: State): Entry
    requires st.heap != []
  {
    st.heap[MinAt(st.heap)]
  }

  /** The state after `heappop`, `open_set_hash.remove(current)` and `nodes_visited += 1`. */
  function Popped(st: State): State
    requires st.heap != []
  {
    var i := MinAt(st.heap);
    st.(heap := Without(st.heap, i), hash := st.hash - {st.heap[i].node}, visited := st.visited + 1)
  }

  /** One iteration of `while open_set`: pop, count, then visit the popped entry. */
  function Step(graph: Graph, key: string, h: NodeId -> real, skipStale: bool, start: NodeId, goal: NodeId,
                st: State): Next
    requires st.heap != []
  {
    if Top(st).node !in st.hash then Done(Raised)
    else Visit(graph, key, h, skipStale, start, goal, Top(st), Popped(st))
  }

  /** The rest of an iteration, from the popped entry `e` and the state `st1` after the pop: maybe skip a stale
      entry, stop at the goal, else relax every neighbour. */
  function Visit(graph: Graph, key: string, h: NodeId -> real, skipStale: bool, start: NodeId, goal: NodeId,
                 e: Entry, st1: State): Next
  {
    if skipStale && e.node !in st1.g then Done(Raised)
    else if skipStale && Exceeds(e.f, st1.g[e.node]) then Continue(st1)
    else if e.node == goal then
      match Backtrack(st1.cameFrom, goal, |st1.g|)
      case None => Done(OutOfFuel)
      case Some(chain) => Done(Found([start] + chain, st1.visited))
    else if !HasNode(graph, e.node) then Done(Raised)
    else
      match RelaxAll(graph, key, h, st1, e.node, Neighbors(graph, e.node))
      case None => Done(Raised)
      case Some(st2) => Continue(st2)
  }

  /** The search loop from `st`, for at most `fuel` iterations. */
  function Run(graph: Graph, key: string, h: NodeId -> real, skipStale: bool, start: NodeId, goal: NodeId,
               st: State, fuel: nat): Outcome
    decreases fuel, 0
  {
    if st.heap == [] then NoPath(st.visited)
    else if fuel == 0 then OutOfFuel
    else Resume(graph, key, h, skipStale, start, goal, Step(graph, key, h, skipStale, start, goal, st), fuel - 1)
  }

  /** The loop after one iteration: a returned outcome, or the loop from the next state. */
  function Resume(graph: Graph, key: string, h: NodeId -> real, skipStale: bool, start: NodeId, goal: NodeId,
                  n: Next, fuel: nat): Outcome
    decreases fuel, 1
  {
    match n
    case Done(r) => r
    case Continue(st') => Run(graph, key, h, skipStale, start, goal, st', fuel)
  }

  /** `astar_path(graph, start, goal, heuristic, weight)` */
  function AStarPy(graph: Graph, start: NodeId, goal: NodeId, h: NodeId -> real, key: string, fuel: nat): Outcome {
    Run(graph, key, h, false, start, goal, Init(graph, h, start), fuel)
  }

  /** `dijkstra_path(graph, start, goal, weight)` */
  function DijkstraPy(graph: Graph, start: NodeId, goal: NodeId, key: string, fuel: nat): Outcome {
    Run(graph, key, Zero, true, start, goal, Init(graph, Zero, start), fuel)
  }

  // ---------------------------------------------------------------------------------------
  // Invariants

  /** `x` comes before `y`: both reached, `x` cheaper, or as cheap and changed earlier. */
  ghost predicate Before(st: State, x: NodeId, y: NodeId) {
    && x in st.g && y in st.g && st.g[x].Fin? && st.g[y].Fin?
    && (st.g[x].val < st.g[y].val || (st.g[x].val == st.g[y].val && StampOf(st, x) < StampOf(st, y)))
  }

  /** `came_from[v]` has an edge to `v` and comes before `v`. */
  ghost predicate Linked(graph: Graph, st: State, v: NodeId)
    requires v in st.cameFrom
  {
    EdgesBetween(graph, st.cameFrom[v], v).Some? && Before(st, st.cameFrom[v], v)
  }

  /** A heap entry's node is reached and is the start or a node of the graph. */
  ghost predicate Queued(graph: Graph, start: NodeId, st: State, v: NodeId) {
    v in st.g && st.g[v].Fin? && (v == start || HasNode(graph, v))
  }

  ghost predicate Inv(graph: Graph, start: NodeId, st: State) {
    && start in st.g && st.g[start] == Fin(0.0) && start !in st.cameFrom
    && (forall v :: v in st.g && st.g[v].Fin? ==> st.g[v].val >= 0.0)
    && (forall v :: v in st.g && st.g[v].Fin? && v != start ==> v in st.cameFrom)
    && (forall v {:trigger Linked(graph, st, v)} :: v in st.cameFrom ==> Linked(graph, st, v))
    && (forall v :: v in st.stamp ==> st.stamp[v] < st.clock) && st.clock >= 1
    && st.hash == HeapNodes(st.heap) && NoTwice(st.heap)
    && (forall i :: 0 <= i < |st.heap| ==> Queued(graph, start, st, st.heap[i].node))
  }

  lemma {:induction false} InitInv(graph: Graph, h: NodeId -> real, start: NodeId)
    ensures Inv(graph, start, Init(graph, h, start))
  {
    var st := Init(graph, h, start);
    assert HeapNodes(st.heap) == {start} by {
      assert st.heap[0] in st.heap;
    }
  }

  // ---------------------------------------------------------------------------------------
  // The heap and its companion set

  lemma {:induction false} HeapNodesWithout(heap: seq<Entry>, i: nat)
    requires i < |heap| && NoTwice(heap)
    ensures HeapNodes(Without(heap, i)) == HeapNodes(heap) - {heap[i].node}
    ensures NoTwice(Without(heap, i))
  {
    var r := Without(heap, i);
    forall n | n in HeapNodes(heap) - {heap[i].node} ensures n in HeapNodes(r) {
      var e :| e in heap && e.node == n;
      var j :| 0 <= j < |heap| && heap[j] == e;
      assert j != i;
      var k := if j < i then j else j - 1;
      assert r[k] == e;
    }
    forall n | n in HeapNodes(r) ensures n in HeapNodes(heap) - {heap[i].node} {
      var e :| e in r && e.node == n;
      var k :| 0 <= k < |r| && r[k] == e;
      var j := if k < i then k else k + 1;
      assert heap[j] == e && j != i;
    }
  }

  lemma {:induction false} HeapNodesPush(heap: seq<Entry>, e: Entry)
    requires NoTwice(heap) && e.node !in HeapNodes(heap)
    ensures HeapNodes(heap + [e]) == HeapNodes(heap) + {e.node}
    ensures NoTwice(heap + [e])
  {
    var r := heap + [e];
    forall i | 0 <= i < |heap| ensures heap[i].node != e.node {
      assert heap[i] in heap;
    }
    forall n | n in HeapNodes(r) ensures n in HeapNodes(heap) + {e.node} {
      var x :| x in r && x.node == n;
      var k :| 0 <= k < |r| && r[k] == x;
      if k < |heap| {
        assert heap[k] == x;
      }
    }
    assert r[|heap|] == e;
    forall n | n in HeapNodes(heap) ensures n in HeapNodes(r) {
      var x :| x in heap && x.node == n;
      var k :| 0 <= k < |heap| && heap[k] == x;
      assert r[k] == x;
    }
  }

  /** Popping the least entry keeps the invariant; the popped node was in `open_set_hash` and is queued. */
  lemma {:induction false} PopKeeps(graph: Graph, start: NodeId, st: State)
    requires Inv(graph, start, st) && st.heap != []
    ensures Top(st).node in st.hash && Queued(graph, start, st, Top(st).node)
    ensures Inv(graph, start, Popped(st))
  {
    var i := MinAt(st.heap);
    var e := st.heap[i];
    assert e in st.heap;
    assert Queued(graph, start, st, st.heap[i].node);
    HeapNodesWithout(st.heap, i);
    var st1 := Popped(st);
    forall k | 0 <= k < |st1.heap| ensures Queued(graph, start, st1, st1.heap[k].node) {
      var j := if k < i then k else k + 1;
      assert st1.heap[k] == st.heap[j];
      assert Queued(graph, start, st, st.heap[j].node);
    }
    assert forall v {:trigger Linked(graph, st1, v)} :: v in st1.cameFrom ==> Linked(graph, st, v) == Linked(graph, st1, v);
  }

  // ---------------------------------------------------------------------------------------
  // Relaxation

  /** `g_score[x]` is finite. */
  ghost predicate Reached(st: State, x: NodeId) {
    x in st.g && st.g[x].Fin?
  }

  /** No recorded cost got worse from `st` to `r`. */
  ghost predicate NoWorse(st: State, r: State) {
    forall x :: x in st.g ==> x in r.g && (st.g[x].Fin? ==> r.g[x].Fin? && r.g[x].val <= st.g[x].val)
  }

  lemma {:induction false} NeighborIsNode(graph: Graph, u: NodeId, v: NodeId)
    requires WellFormed(graph) && v in Neighbors(graph, u)
    ensures u in graph.adj && HasNode(graph, v)
  {
    var links := graph.adj[u];
    var i :| 0 <= i < |Targets(links)| && Targets(links)[i] == v;
    assert WellFormedLinks(graph, links);
    assert links[i].to == v;
  }

  lemma {:induction false} PathExtend(graph: Graph, q: seq<NodeId>, s: NodeId, u: NodeId, v: NodeId)
    requires IsGraphPath(graph, q, s, u) && EdgesBetween(graph, u, v).Some?
    ensures IsGraphPath(graph, q + [v], s, v)
  {
    var r := q + [v];
    forall i | 0 <= i < |r| - 1 ensures EdgesBetween(graph, r[i], r[i + 1]).Some? {
      if i < |q| - 1 {
        assert r[i] == q[i] && r[i + 1] == q[i + 1];
      } else {
        assert r[i] == u && r[i + 1] == v;
      }
    }
  }

  /** One relaxation from a reached node: costs only fall, the open set only grows, a node whose cost changed is
      in the open set, and the neighbour ends up reached. */
  lemma {:induction false} RelaxOneMonotone(graph: Graph, key: string, h: NodeId -> real, st: State, u: NodeId, v: NodeId)
    requires Reached(st, u) && RelaxOne(graph, key, h, st, u, v).Some?
    ensures var r := RelaxOne(graph, key, h, st, u, v).value;
      && NoWorse(st, r) && st.hash <= r.hash && Reached(r, v) && r.visited == st.visited
      && (forall x :: Reached(r, x) && x !in r.hash ==> Reached(st, x) && x !in st.hash && r.g[x] == st.g[x])
  {
  }

  /** One relaxation keeps the invariant. It cannot fail: `u` is reached and `v` is one of its neighbours. */
  lemma {:induction false} RelaxOneKeeps(graph: Graph, key: string, h: NodeId -> real, start: NodeId, st: State,
                                         u: NodeId, v: NodeId)
    requires WellFormed(graph) && Inv(graph, start, st)
    requires Reached(st, u) && v in Neighbors(graph, u)
    ensures RelaxOne(graph, key, h, st, u, v).Some?
    ensures Inv(graph, start, RelaxOne(graph, key, h, st, u, v).value)
  {
    EdgeCostNonNegative(graph, u, v, key);
    var t := st.g[u].val + EdgeCost(EdgesBetween(graph, u, v).value, key);
    if Improves(t, if v in st.g then st.g[v] else Inf) {
      RelaxOneImproves(graph, key, h, st, u, v, t);
      ImproveKeeps(graph, start, st, RelaxOne(graph, key, h, st, u, v).value, u, v, t);
    } else {
      RelaxOneStays(graph, key, h, st, u, v, t);
    }
  }

  /** A relaxation from a reached node through an edge of cost `t` in total that improves on `v`'s cost gives `v`
      the predecessor `u`, the cost `t` and a fresh stamp, and queues `v` unless it is queued. */
  lemma {:induction false} RelaxOneImproves(graph: Graph, key: string, h: NodeId -> real, st: State, u: NodeId,
                                            v: NodeId, t: real)
    requires Reached(st, u) && EdgesBetween(graph, u, v).Some? && |EdgesBetween(graph, u, v).value| > 0
    requires t == st.g[u].val + EdgeCost(EdgesBetween(graph, u, v).value, key)
    requires Improves(t, if v in st.g then st.g[v] else Inf)
    ensures RelaxOne(graph, key, h, st, u, v).Some?
    ensures var r := RelaxOne(graph, key, h, st, u, v).value;
      && r.cameFrom == st.cameFrom[v := u] && r.g == st.g[v := Fin(t)]
      && r.stamp == st.stamp[v := st.clock] && r.clock == st.clock + 1
      && (if v in st.hash then r.heap == st.heap && r.hash == st.hash
          else r.hash == st.hash + {v} && exists f :: r.heap == st.heap + [Entry(f, v)])
  {
    assert Plus(st.g[u], EdgeCost(EdgesBetween(graph, u, v).value, key)) == Fin(t);
    if v !in st.hash {
      assert RelaxOne(graph, key, h, st, u, v).value.heap == st.heap + [Entry(t + h(v), v)];
    }
  }

  /** A relaxation from a reached node that does not improve on `v`'s cost changes nothing. */
  lemma {:induction false} RelaxOneStays(graph: Graph, key: string, h: NodeId -> real, st: State, u: NodeId,
                                         v: NodeId, t: real)
    requires Reached(st, u) && EdgesBetween(graph, u, v).Some? && |EdgesBetween(graph, u, v).value| > 0
    requires t == st.g[u].val + EdgeCost(EdgesBetween(graph, u, v).value, key)
    requires !Improves(t, if v in st.g then st.g[v] else Inf)
    ensures RelaxOne(graph, key, h, st, u, v) == Some(st)
  {
    assert Plus(st.g[u], EdgeCost(EdgesBetween(graph, u, v).value, key)) == Fin(t);
  }


  /** The improvement of `v` to cost `t` through `u`, with `v` pushed unless it is in the open set, keeps the
      invariant when `t` is no less than `u`'s cost. */
  lemma {:induction false} ImproveKeeps(graph: Graph, start: NodeId, st: State, r: State, u: NodeId, v: NodeId, t: real)
    requires WellFormed(graph) && Inv(graph, start, st)
    requires Reached(st, u) && v in Neighbors(graph, u) && t >= st.g[u].val
    requires Improves(t, if v in st.g then st.g[v] else Inf)
    requires r.cameFrom == st.cameFrom[v := u] && r.g == st.g[v := Fin(t)]
    requires r.stamp == st.stamp[v := st.clock] && r.clock == st.clock + 1
    requires if v in st.hash then r.heap == st.heap && r.hash == st.hash
             else r.hash == st.hash + {v} && exists f :: r.heap == st.heap + [Entry(f, v)]
    ensures Inv(graph, start, r)
  {
    assert v != start && v != u;
    ImproveLinks(graph, start, st, r, u, v, t);
    ImproveHeap(graph, start, st, r, u, v, t);
  }

  /** After the improvement, the heap and the open set still agree and every entry is queued. */
  lemma {:induction false} ImproveHeap(graph: Graph, start: NodeId, st: State, r: State, u: NodeId, v: NodeId, t: real)
    requires WellFormed(graph) && Inv(graph, start, st) && v in Neighbors(graph, u)
    requires r.g == st.g[v := Fin(t)]
    requires if v in st.hash then r.heap == st.heap && r.hash == st.hash
             else r.hash == st.hash + {v} && exists f :: r.heap == st.heap + [Entry(f, v)]
    ensures r.hash == HeapNodes(r.heap) && NoTwice(r.heap)
    ensures forall i :: 0 <= i < |r.heap| ==> Queued(graph, start, r, r.heap[i].node)
  {
    NeighborIsNode(graph, u, v);
    if v !in st.hash {
      var f :| r.heap == st.heap + [Entry(f, v)];
      HeapNodesPush(st.heap, Entry(f, v));
    }
    forall i | 0 <= i < |r.heap| ensures Queued(graph, start, r, r.heap[i].node) {
      if i < |st.heap| {
        assert r.heap[i] == st.heap[i];
        assert Queued(graph, start, st, st.heap[i].node);
      }
    }
  }

  /** After the improvement, every `came_from` link still points to an earlier node. */
  lemma {:induction false} ImproveLinks(graph: Graph, start: NodeId, st: State, r: State, u: NodeId, v: NodeId, t: real)
    requires Inv(graph, start, st)
    requires Reached(st, u) && v in Neighbors(graph, u) && v != u && t >= st.g[u].val
    requires Improves(t, if v in st.g then st.g[v] else Inf)
    requires r.cameFrom == st.cameFrom[v := u] && r.g == st.g[v := Fin(t)]
    requires r.stamp == st.stamp[v := st.clock] && r.clock == st.clock + 1
    ensures forall x {:trigger Linked(graph, r, x)} :: x in r.cameFrom ==> Linked(graph, r, x)
  {
    forall x | x in r.cameFrom ensures Linked(graph, r, x) {
      if x == v {
        assert StampOf(r, u) == StampOf(st, u) < st.clock;
        assert Before(r, u, v);
      } else {
        assert Linked(graph, st, x);
        var y := st.cameFrom[x];
        assert r.cameFrom[x] == y && r.g[x] == st.g[x] && StampOf(r, x) == StampOf(st, x);
        if y != v {
          assert r.g[y] == st.g[y] && StampOf(r, y) == StampOf(st, y);
        }
        assert Before(r, y, x);
      }
    }
  }

  lemma {:induction false} NoWorseTrans(a: State, b: State, c: State)
    requires NoWorse(a, b) && NoWorse(b, c)
    ensures NoWorse(a, c)
  {
  }

  /** Relaxing a list of neighbours of a reached node: costs only fall, the open set only grows, a node whose
      cost changed is in the open set, and every listed neighbour ends up reached. */
  lemma {:induction false} RelaxAllMonotone(graph: Graph, key: string, h: NodeId -> real, st: State, u: NodeId,
                                            nbs: seq<NodeId>)
    requires Reached(st, u) && RelaxAll(graph, key, h, st, u, nbs).Some?
    ensures var r := RelaxAll(graph, key, h, st, u, nbs).value;
      && NoWorse(st, r) && st.hash <= r.hash && r.visited == st.visited
      && (forall k :: 0 <= k < |nbs| ==> Reached(r, nbs[k]))
      && (forall x :: Reached(r, x) && x !in r.hash ==> Reached(st, x) && x !in st.hash && r.g[x] == st.g[x])
    decreases |nbs|
  {
    if nbs != [] {
      RelaxOneMonotone(graph, key, h, st, u, nbs[0]);
      var st' := RelaxOne(graph, key, h, st, u, nbs[0]).value;
      RelaxAllMonotone(graph, key, h, st', u, nbs[1..]);
      var r := RelaxAll(graph, key, h, st', u, nbs[1..]).value;
      NoWorseTrans(st, st', r);
      forall k | 0 <= k < |nbs| ensures Reached(r, nbs[k]) {
        if k > 0 {
          assert nbs[k] == nbs[1..][k - 1];
        }
      }
    }
  }

  /** Relaxing neighbours of a reached node keeps the invariant and never fails. */
  lemma {:induction false} RelaxAllKeeps(graph: Graph, key: string, h: NodeId -> real, start: NodeId, st: State,
                                         u: NodeId, nbs: seq<NodeId>)
    requires WellFormed(graph) && Inv(graph, start, st) && Reached(st, u)
    requires forall k :: 0 <= k < |nbs| ==> nbs[k] in Neighbors(graph, u)
    ensures RelaxAll(graph, key, h, st, u, nbs).Some?
    ensures Inv(graph, start, RelaxAll(graph, key, h, st, u, nbs).value)
    decreases |nbs|
  {
    if nbs != [] {
      RelaxOneKeeps(graph, key, h, start, st, u, nbs[0]);
      RelaxOneMonotone(graph, key, h, st, u, nbs[0]);
      var st' := RelaxOne(graph, key, h, st, u, nbs[0]).value;
      assert forall k :: 0 <= k < |nbs[1..]| ==> nbs[1..][k] == nbs[k + 1];
      RelaxAllKeeps(graph, key, h, start, st', u, nbs[1..]);
    }
  }

  // ---------------------------------------------------------------------------------------
  // One iteration

  /** An iteration that goes on keeps the invariant, counts one pop and makes no cost worse. */
  lemma {:induction false} StepKeeps(graph: Graph, key: string, h: NodeId -> real, skipStale: bool, start: NodeId,
                                     goal: NodeId, st: State)
    requires WellFormed(graph) && Inv(graph, start, st) && st.heap != []
    ensures var n := Step(graph, key, h, skipStale, start, goal, st);
      n.Continue? ==> Inv(graph, start, n.st) && n.st.visited == st.visited + 1 && NoWorse(st, n.st)
  {
    PopKeeps(graph, start, st);
    VisitKeeps(graph, key, h, skipStale, start, goal, Top(st), Popped(st));
  }

  lemma {:induction false} VisitKeeps(graph: Graph, key: string, h: NodeId -> real, skipStale: bool, start: NodeId,
                                      goal: NodeId, e: Entry, st1: State)
    requires WellFormed(graph) && Inv(graph, start, st1) && Queued(graph, start, st1, e.node)
    ensures var n := Visit(graph, key, h, skipStale, start, goal, e, st1);
      n.Continue? ==> Inv(graph, start, n.st) && n.st.visited == st1.visited && NoWorse(st1, n.st)
  {
    if !(skipStale && Exceeds(e.f, st1.g[e.node])) && e.node != goal && HasNode(graph, e.node) {
      RelaxAllKeeps(graph, key, h, start, st1, e.node, Neighbors(graph, e.node));
      RelaxAllMonotone(graph, key, h, st1, e.node, Neighbors(graph, e.node));
    }
  }

  lemma {:induction false} SubsetNoLarger<T>(a: set<T>, b: set<T>)
    requires a <= b
    ensures |a| <= |b|
  {
    if a != {} {
      var x :| x in a;
      SubsetNoLarger(a - {x}, b - {x});
    }
  }

  lemma {:induction false} SubsetSmaller<T>(a: set<T>, b: set<T>)
    requires a < b
    ensures |a| < |b|
  {
    assert !(b <= a);
    var y :| y in b && y !in a;
    SubsetNoLarger(a, b - {y});
  }

  /** The reached nodes that come before `y`. */
  ghost function Earlier(st: State, y: NodeId): set<NodeId> {
    set x | x in st.g && Before(st, x, y)
  }

  lemma {:induction false} EarlierShrinks(st: State, x: NodeId, y: NodeId)
    requires Before(st, x, y)
    ensures |Earlier(st, x)| < |Earlier(st, y)|
  {
    assert x in Earlier(st, y) - Earlier(st, x);
    SubsetSmaller(Earlier(st, x), Earlier(st, y));
  }

  lemma {:induction false} EarlierBound(st: State, y: NodeId)
    requires y in st.g
    ensures |Earlier(st, y)| < |st.g|
  {
    SubsetSmaller(Earlier(st, y), st.g.Keys);
  }

  lemma {:induction false} PathGrow(graph: Graph, start: NodeId, p: seq<NodeId>, u: NodeId, v: NodeId)
    requires IsGraphPath(graph, [start] + p, start, u) && EdgesBetween(graph, u, v).Some?
    ensures IsGraphPath(graph, [start] + (p + [v]), start, v)
  {
    assert [start] + (p + [v]) == ([start] + p) + [v];
    PathExtend(graph, [start] + p, start, u, v);
  }

  /** Walking `came_from` back from a reached node ends at the start within `|g_score|` steps, and the walk read
      forwards is a path of the graph. */
  lemma {:induction false} BacktrackPath(graph: Graph, start: NodeId, st: State, v: NodeId, fuel: nat)
    requires Inv(graph, start, st) && Reached(st, v) && fuel > |Earlier(st, v)|
    ensures Backtrack(st.cameFrom, v, fuel).Some?
    ensures IsGraphPath(graph, [start] + Backtrack(st.cameFrom, v, fuel).value, start, v)
    decreases fuel
  {
    if v !in st.cameFrom {
      assert v == start;
      assert [start] + [] == [start];
    } else {
      var u := st.cameFrom[v];
      assert Linked(graph, st, v);
      EarlierShrinks(st, u, v);
      BacktrackPath(graph, start, st, u, fuel - 1);
      PathGrow(graph, start, Backtrack(st.cameFrom, u, fuel - 1).value, u, v);
    }
  }

  /** An iteration that returns returns a path of the graph from the start to the goal, counting the final
      pop, or raises because the start is neither a node of the graph nor the goal. */
  lemma {:induction false} StepDone(graph: Graph, key: string, h: NodeId -> real, skipStale: bool, start: NodeId,
                                    goal: NodeId, st: State)
    requires WellFormed(graph) && Inv(graph, start, st) && st.heap != []
    ensures var n := Step(graph, key, h, skipStale, start, goal, st);
      n.Done? ==>
        && (n.r.Found? ==> IsGraphPath(graph, n.r.path, start, goal) && n.r.visited == st.visited + 1)
        && (n.r.Raised? ==> !HasNode(graph, start) && start != goal)
        && !n.r.OutOfFuel? && !n.r.NoPath?
  {
    PopKeeps(graph, start, st);
    VisitDone(graph, key, h, skipStale, start, goal, Top(st), Popped(st));
  }

  lemma {:induction false} VisitDone(graph: Graph, key: string, h: NodeId -> real, skipStale: bool, start: NodeId,
                                     goal: NodeId, e: Entry, st1: State)
    requires WellFormed(graph) && Inv(graph, start, st1) && Queued(graph, start, st1, e.node)
    ensures var n := Visit(graph, key, h, skipStale, start, goal, e, st1);
      n.Done? ==>
        && (n.r.Found? ==> IsGraphPath(graph, n.r.path, start, goal) && n.r.visited == st1.visited)
        && (n.r.Raised? ==> !HasNode(graph, start) && start != goal)
        && !n.r.OutOfFuel? && !n.r.NoPath?
  {
    if skipStale && Exceeds(e.f, st1.g[e.node]) {
    } else if e.node == goal {
      EarlierBound(st1, goal);
      BacktrackPath(graph, start, st1, goal, |st1.g|);
    } else if HasNode(graph, e.node) {
      RelaxAllKeeps(graph, key, h, start, st1, e.node, Neighbors(graph, e.node));
    }
  }

  // ---------------------------------------------------------------------------------------
  // The whole search

  /** A returned path is a path of the graph from the start to the goal, and an exception means the start is
      neither a node of the graph nor the goal. */
  ghost predicate SoundOutcome(graph: Graph, start: NodeId, goal: NodeId, r: Outcome) {
    && (r.Found? ==> IsGraphPath(graph, r.path, start, goal))
    && (r.Raised? ==> !HasNode(graph, start) && start != goal)
  }

  /** One iteration keeps the invariant or returns a sound outcome. */
  lemma {:induction false} StepSound(graph: Graph, key: string, h: NodeId -> real, skipStale: bool, start: NodeId,
                                     goal: NodeId, st: State)
    requires WellFormed(graph) && Inv(graph, start, st) && st.heap != []
    ensures var n := Step(graph, key, h, skipStale, start, goal, st);
      && (n.Continue? ==> Inv(graph, start, n.st))
      && (n.Done? ==> SoundOutcome(graph, start, goal, n.r))
  {
    StepDone(graph, key, h, skipStale, start, goal, st);
    StepKeeps(graph, key, h, skipStale, start, goal, st);
  }

  /** From a state meeting the invariant, a returned path is a path of the graph from the start to the goal, and
      an exception means the start is neither a node of the graph nor the goal. */
  lemma {:induction false} RunSound(graph: Graph, key: string, h: NodeId -> real, skipStale: bool, start: NodeId,
                                    goal: NodeId, st: State, fuel: nat)
    requires WellFormed(graph) && Inv(graph, start, st)
    ensures SoundOutcome(graph, start, goal, Run(graph, key, h, skipStale, start, goal, st, fuel))
    decreases fuel
  {
    if st.heap != [] && fuel > 0 {
      StepSound(graph, key, h, skipStale, start, goal, st);
      var n := Step(graph, key, h, skipStale, start, goal, st);
      if n.Continue? {
        RunSound(graph, key, h, skipStale, start, goal, n.st, fuel - 1);
      }
      SoundUnfold(graph, key, h, skipStale, start, goal, st, fuel);
    }
  }

  /** Soundness of `Run` follows from soundness of its first iteration and of the rest of the loop. */
  lemma {:induction false} SoundUnfold(graph: Graph, key: string, h: NodeId -> real, skipStale: bool, start: NodeId,
                                       goal: NodeId, st: State, fuel: nat)
    requires st.heap != [] && fuel > 0
    requires var n := Step(graph, key, h, skipStale, start, goal, st);
      && (n.Done? ==> SoundOutcome(graph, start, goal, n.r))
      && (n.Continue? ==> SoundOutcome(graph, start, goal, Run(graph, key, h, skipStale, start, goal, n.st, fuel - 1)))
    ensures SoundOutcome(graph, start, goal, Run(graph, key, h, skipStale, start, goal, st, fuel))
  {
    RunUnfold(graph, key, h, skipStale, start, goal, st, fuel);
  }

  /** The number of iterations of `while open_set` that `Run` performs, each popping one entry. */
  ghost function Pops(graph: Graph, key: string, h: NodeId -> real, skipStale: bool, start: NodeId, goal: NodeId,
                      st: State, fuel: nat): nat
    decreases fuel, 0
  {
    if st.heap == [] || fuel == 0 then 0
    else 1 + PopsAfter(graph, key, h, skipStale, start, goal, Step(graph, key, h, skipStale, start, goal, st), fuel - 1)
  }

  /** The number of iterations after one iteration that ended in `n`. */
  ghost function PopsAfter(graph: Graph, key: string, h: NodeId -> real, skipStale: bool, start: NodeId, goal: NodeId,
                           n: Next, fuel: nat): nat
    decreases fuel, 1
  {
    match n
    case Done(_) => 0
    case Continue(st') => Pops(graph, key, h, skipStale, start, goal, st', fuel)
  }

  lemma {:induction false} RelaxAllVisited(graph: Graph, key: string, h: NodeId -> real, st: State, u: NodeId,
                                           nbs: seq<NodeId>)
    requires RelaxAll(graph, key, h, st, u, nbs).Some?
    ensures RelaxAll(graph, key, h, st, u, nbs).value.visited == st.visited
    decreases |nbs|
  {
    if nbs != [] {
      RelaxAllVisited(graph, key, h, RelaxOne(graph, key, h, st, u, nbs[0]).value, u, nbs[1..]);
    }
  }

  /** Every iteration counts exactly one pop, whether it goes on or returns a path. */
  lemma {:induction false} StepCounts(graph: Graph, key: string, h: NodeId -> real, skipStale: bool, start: NodeId,
                                      goal: NodeId, st: State)
    requires st.heap != []
    ensures StepCounted(Step(graph, key, h, skipStale, start, goal, st), st.visited)
  {
    var e, st1 := Top(st), Popped(st);
    if e.node in st.hash && !(skipStale && e.node !in st1.g) && !(skipStale && Exceeds(e.f, st1.g[e.node]))
       && e.node != goal && HasNode(graph, e.node) {
      var r := RelaxAll(graph, key, h, st1, e.node, Neighbors(graph, e.node));
      if r.Some? {
        RelaxAllVisited(graph, key, h, st1, e.node, Neighbors(graph, e.node));
      }
    }
  }

  /** A returned count is `n`. */
  predicate Counted(r: Outcome, n: nat) {
    r.Found? || r.NoPath? ==> r.visited == n
  }

  /** One iteration after `k` pops counts `k + 1`, whether it continues or returns. */
  predicate StepCounted(n: Next, k: nat) {
    && (n.Continue? ==> n.st.visited == k + 1)
    && (n.Done? ==> Counted(n.r, k + 1))
  }

  /** The loop from `st` returns the starting count plus its iterations. */
  ghost predicate RunCounted(graph: Graph, key: string, h: NodeId -> real, skipStale: bool, start: NodeId, goal: NodeId,
                       st: State, fuel: nat) {
    Counted(Run(graph, key, h, skipStale, start, goal, st, fuel),
            st.visited + Pops(graph, key, h, skipStale, start, goal, st, fuel))
  }

  /** `nodes_visited` is the number of heap pops: a returned count is the starting count plus the iterations. */
  lemma {:induction false} RunCounts(graph: Graph, key: string, h: NodeId -> real, skipStale: bool, start: NodeId,
                                     goal: NodeId, st: State, fuel: nat)
    ensures RunCounted(graph, key, h, skipStale, start, goal, st, fuel)
    decreases fuel, 0
  {
    if st.heap != [] && fuel > 0 {
      StepCounts(graph, key, h, skipStale, start, goal, st);
      ResumeCounts(graph, key, h, skipStale, start, goal, Step(graph, key, h, skipStale, start, goal, st), fuel - 1,
                   st.visited);
    }
  }

  /** After an iteration that counted `k + 1`, the loop returns `k + 1` plus its remaining iterations. */
  lemma {:induction false} ResumeCounts(graph: Graph, key: string, h: NodeId -> real, skipStale: bool, start: NodeId,
                                        goal: NodeId, n: Next, fuel: nat, k: nat)
    requires StepCounted(n, k)
    ensures Counted(Resume(graph, key, h, skipStale, start, goal, n, fuel),
                    k + 1 + PopsAfter(graph, key, h, skipStale, start, goal, n, fuel))
    decreases fuel, 1
  {
    if n.Continue? {
      RunCounts(graph, key, h, skipStale, start, goal, n.st, fuel);
    }
  }

  /** A search whose start is the goal returns `[start]` after one pop. */
  lemma {:induction false} StartIsGoal(graph: Graph, start: NodeId, h: NodeId -> real, key: string, fuel: nat)
    requires fuel > 0
    ensures AStarPy(graph, start, start, h, key, fuel) == Found([start], 1)
    ensures DijkstraPy(graph, start, start, key, fuel) == Found([start], 1)
  {
    var st := Init(graph, h, start);
    assert Top(st) == Entry(h(start), start) && Popped(st).cameFrom == map[];
    assert Backtrack(map[], start, |Popped(st).g|) == Some([]);
    assert [start] + [] == [start];
    assert Step(graph, key, h, false, start, start, st) == Done(Found([start], 1));
    RunUnfold(graph, key, h, false, start, start, st, fuel);
    var st0 := Init(graph, Zero, start);
    assert Top(st0) == Entry(0.0, start) && Popped(st0).cameFrom == map[];
    assert Step(graph, key, Zero, true, start, start, st0) == Done(Found([start], 1));
    RunUnfold(graph, key, Zero, true, start, start, st0, fuel);
  }

  /** The first pop of a start that is neither the goal nor a node of the graph raises (`graph.neighbors`), unless
      a skipping search finds its own first entry stale. */
  lemma {:induction false} FirstStepRaises(graph: Graph, key: string, h: NodeId -> real, skipStale: bool,
                                           start: NodeId, goal: NodeId)
    requires !HasNode(graph, start) && start != goal && !(skipStale && h(start) > 0.0)
    ensures Step(graph, key, h, skipStale, start, goal, Init(graph, h, start)) == Done(Raised)
  {
    var st := Init(graph, h, start);
    assert Top(st) == Entry(h(start), start);
  }

  /** `astar_path` raises exactly when the start is neither a node of the graph nor the goal. */
  lemma {:induction false} AStarPyRaises(graph: Graph, start: NodeId, goal: NodeId, h: NodeId -> real, key: string,
                                         fuel: nat)
    requires WellFormed(graph)
    ensures AStarPy(graph, start, goal, h, key, fuel) == Raised <==> fuel > 0 && !HasNode(graph, start) && start != goal
  {
    InitInv(graph, h, start);
    RunSound(graph, key, h, false, start, goal, Init(graph, h, start), fuel);
    if fuel > 0 && !HasNode(graph, start) && start != goal {
      FirstStepRaises(graph, key, h, false, start, goal);
      RunUnfold(graph, key, h, false, start, goal, Init(graph, h, start), fuel);
    }
  }

  /** `dijkstra_path` raises exactly when the start is neither a node of the graph nor the goal. */
  lemma {:induction false} DijkstraPyRaises(graph: Graph, start: NodeId, goal: NodeId, key: string, fuel: nat)
    requires WellFormed(graph)
    ensures DijkstraPy(graph, start, goal, key, fuel) == Raised <==> fuel > 0 && !HasNode(graph, start) && start != goal
  {
    InitInv(graph, Zero, start);
    RunSound(graph, key, Zero, true, start, goal, Init(graph, Zero, start), fuel);
    if fuel > 0 && !HasNode(graph, start) && start != goal {
      FirstStepRaises(graph, key, Zero, true, start, goal);
      RunUnfold(graph, key, Zero, true, start, goal, Init(graph, Zero, start), fuel);
    }
  }

  /** Both searches return only paths of the graph from the start to the goal, with `nodes_visited` the
      number of heap pops. */
  lemma {:induction false} PySearchFound(graph: Graph, start: NodeId, goal: NodeId, h: NodeId -> real, skipStale: bool,
                                         key: string, fuel: nat)
    requires WellFormed(graph)
    ensures var r := Run(graph, key, h, skipStale, start, goal, Init(graph, h, start), fuel);
      && (r.Found? ==> IsGraphPath(graph, r.path, start, goal))
      && (r.Found? || r.NoPath? ==> r.visited == Pops(graph, key, h, skipStale, start, goal, Init(graph, h, start), fuel))
  {
    InitInv(graph, h, start);
    RunSound(graph, key, h, skipStale, start, goal, Init(graph, h, start), fuel);
    RunCounts(graph, key, h, skipStale, start, goal, Init(graph, h, start), fuel);
  }

  // ---------------------------------------------------------------------------------------
  // Completeness of the search that never skips

  /** Every neighbour of `x` is reached. */
  ghost predicate Expanded(graph: Graph, st: State, x: NodeId) {
    forall y :: y in Neighbors(graph, x) ==> Reached(st, y)
  }

  /** Every reached node of the graph outside the open set has its neighbours reached, and a reached goal is in
      the open set. */
  ghost predicate Closed(graph: Graph, goal: NodeId, st: State) {
    && (forall x :: Reached(st, x) && x !in st.hash && HasNode(graph, x) ==> Expanded(graph, st, x))
    && (Reached(st, goal) ==> goal in st.hash)
  }

  lemma {:induction false} InitClosed(graph: Graph, h: NodeId -> real, start: NodeId, goal: NodeId)
    ensures Closed(graph, goal, Init(graph, h, start))
  {
  }

  /** An iteration of the search that never skips keeps `Closed`: the popped node, unless it is the goal (which
      returns), has every neighbour reached once relaxed. */
  lemma {:induction false} StepCloses(graph: Graph, key: string, h: NodeId -> real, start: NodeId, goal: NodeId,
                                      st: State)
    requires WellFormed(graph) && Inv(graph, start, st) && Closed(graph, goal, st) && st.heap != []
    ensures var n := Step(graph, key, h, false, start, goal, st);
      n.Continue? ==> Closed(graph, goal, n.st)
  {
    PopKeeps(graph, start, st);
    var e, st1 := Top(st), Popped(st);
    if e.node != goal && HasNode(graph, e.node) {
      var nbs := Neighbors(graph, e.node);
      RelaxAllKeeps(graph, key, h, start, st1, e.node, nbs);
      RelaxAllMonotone(graph, key, h, st1, e.node, nbs);
      ExpandCloses(graph, goal, st, st1, RelaxAll(graph, key, h, st1, e.node, nbs).value, e.node);
    }
  }

  /** Expanding the popped node `u` (every neighbour reached, costs only fall, the open set only grows, changed
      nodes queued) restores `Closed`. */
  lemma {:induction false} ExpandCloses(graph: Graph, goal: NodeId, st: State, st1: State, r: State, u: NodeId)
    requires Closed(graph, goal, st) && u != goal
    requires st1.g == st.g && st1.hash == st.hash - {u}
    requires NoWorse(st1, r) && st1.hash <= r.hash
    requires forall k :: 0 <= k < |Neighbors(graph, u)| ==> Reached(r, Neighbors(graph, u)[k])
    requires forall x :: Reached(r, x) && x !in r.hash ==> Reached(st1, x) && x !in st1.hash && r.g[x] == st1.g[x]
    ensures Closed(graph, goal, r)
  {
    forall x | Reached(r, x) && x !in r.hash && HasNode(graph, x) ensures Expanded(graph, r, x) {
      forall y | y in Neighbors(graph, x) ensures Reached(r, y) {
        var k :| 0 <= k < |Neighbors(graph, x)| && Neighbors(graph, x)[k] == y;
        if x != u {
          assert Expanded(graph, st, x);
          assert Reached(st1, y);
        }
      }
    }
  }


  /** Along a path from a reached start, once the open set is empty, every node is reached. */
  lemma {:induction false} ReachedAlong(graph: Graph, start: NodeId, goal: NodeId, st: State, p: seq<NodeId>, i: nat)
    requires WellFormed(graph) && Closed(graph, goal, st) && st.hash == {}
    requires IsGraphPath(graph, p, start, goal) && Reached(st, start) && i < |p|
    ensures Reached(st, p[i])
    decreases i
  {
    if i > 0 {
      ReachedAlong(graph, start, goal, st, p, i - 1);
      assert EdgesBetween(graph, p[i - 1], p[i]).Some?;
      NeighborIsNode(graph, p[i - 1], p[i]);
      assert Expanded(graph, st, p[i - 1]);
    }
  }

  /** When the search that never skips runs out of entries, no path leads from the start to the goal. */
  lemma {:induction false} ExhaustedUnreachable(graph: Graph, start: NodeId, goal: NodeId, st: State)
    requires WellFormed(graph) && Inv(graph, start, st) && Closed(graph, goal, st) && st.heap == []
    ensures forall p :: !IsGraphPath(graph, p, start, goal)
  {
    assert st.hash == {};
    forall p | IsGraphPath(graph, p, start, goal) ensures false {
      ReachedAlong(graph, start, goal, st, p, |p| - 1);
    }
  }

  /** `Run` unfolded once. */
  lemma {:induction false} RunUnfold(graph: Graph, key: string, h: NodeId -> real, skipStale: bool, start: NodeId,
                                     goal: NodeId, st: State, fuel: nat)
    requires st.heap != [] && fuel > 0
    ensures var n := Step(graph, key, h, skipStale, start, goal, st);
      && (n.Done? ==> Run(graph, key, h, skipStale, start, goal, st, fuel) == n.r)
      && (n.Continue? ==> Run(graph, key, h, skipStale, start, goal, st, fuel) ==
                          Run(graph, key, h, skipStale, start, goal, n.st, fuel - 1))
  {
  }

  /** One iteration of the search that never skips keeps both invariants, and does not return "no path". */
  lemma {:induction false} StepComplete(graph: Graph, key: string, h: NodeId -> real, start: NodeId, goal: NodeId,
                                        st: State)
    requires WellFormed(graph) && Inv(graph, start, st) && Closed(graph, goal, st) && st.heap != []
    ensures var n := Step(graph, key, h, false, start, goal, st);
      && (n.Continue? ==> Inv(graph, start, n.st) && Closed(graph, goal, n.st))
      && (n.Done? ==> !n.r.NoPath?)
  {
    StepDone(graph, key, h, false, start, goal, st);
    StepKeeps(graph, key, h, false, start, goal, st);
    StepCloses(graph, key, h, start, goal, st);
  }

  /** From a state meeting both invariants, the search that never skips reports no path only when none exists. */
  lemma {:induction false} RunComplete(graph: Graph, key: string, h: NodeId -> real, start: NodeId, goal: NodeId,
                                       st: State, fuel: nat)
    requires WellFormed(graph) && Inv(graph, start, st) && Closed(graph, goal, st)
    ensures Run(graph, key, h, false, start, goal, st, fuel).NoPath? ==> forall p :: !IsGraphPath(graph, p, start, goal)
    decreases fuel
  {
    if st.heap == [] {
      ExhaustedUnreachable(graph, start, goal, st);
    } else if fuel > 0 {
      StepComplete(graph, key, h, start, goal, st);
      RunUnfold(graph, key, h, false, start, goal, st, fuel);
      var n := Step(graph, key, h, false, start, goal, st);
      if n.Continue? {
        RunComplete(graph, key, h, start, goal, n.st, fuel - 1);
      }
    }
  }

  /** `astar_path` reports no path only when no path of the graph leads from the start to the goal. */
  lemma {:induction false} AStarPyComplete(graph: Graph, start: NodeId, goal: NodeId, h: NodeId -> real, key: string,
                                           fuel: nat)
    requires WellFormed(graph)
    ensures AStarPy(graph, start, goal, h, key, fuel).NoPath? ==> forall p :: !IsGraphPath(graph, p, start, goal)
  {
    InitInv(graph, h, start);
    InitClosed(graph, h, start, goal);
    RunComplete(graph, key, h, start, goal, Init(graph, h, start), fuel);
  }
}
