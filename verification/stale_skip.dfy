/**
 * The stale-entry skip of `dijkstra_path`. A neighbour that already has a heap entry is never pushed again, so
 * when its cost improves its only entry keeps the old, larger priority; popping that entry then meets
 * `current_g_score > g_score[current]` and skips the node for good. On the four-node graph below the search
 * reports no path although one exists. The same search without the skip (which is `astar_path` with a zero
 * heuristic) finds it, and never reports "no path" when a path exists.
 */
module StaleSkip {
  import opened Wrappers
  import opened RoadGraph
  import opened HeapSearch

  /** A road with the given `length` and nothing else. */
  function Road(w: real): Edge {
    Edge(map["length" := w], Absent, Absent)
  }

  /** s = 0, a = 1, b = 2, goal = 3: s -> a costs 10, s -> b costs 1, b -> a costs 1, a -> goal costs 1. */
  function Detour(): Graph {
    Graph([Node(0, 0.0, 0.0), Node(1, 0.0, 0.0), Node(2, 0.0, 0.0), Node(3, 0.0, 0.0)],
          map[0 := [Link(1, [Road(10.0)]), Link(2, [Road(1.0)])], 1 := [Link(3, [Road(1.0)])],
              2 := [Link(1, [Road(1.0)])], 3 := []])
  }

  /** The corrected `dijkstra_path`: the same search without the stale-entry skip. */
  function DijkstraFixed(graph: Graph, start: NodeId, goal: NodeId, key: string, fuel: nat): Outcome {
    Run(graph, key, Zero, false, start, goal, Init(graph, Zero, start), fuel)
  }

  lemma {:induction false} RoadCost(w: real)
    ensures EdgeCost([Road(w)], "length") == w
  {
  }

  lemma {:induction false} DetourShape()
    ensures Ids(Detour().nodes) == [0, 1, 2, 3]
    ensures Neighbors(Detour(), 0) == [1, 2] && Neighbors(Detour(), 1) == [3] && Neighbors(Detour(), 2) == [1]
    ensures Neighbors(Detour(), 3) == []
    ensures EdgesBetween(Detour(), 0, 1) == Some([Road(10.0)]) && EdgesBetween(Detour(), 0, 2) == Some([Road(1.0)])
    ensures EdgesBetween(Detour(), 2, 1) == Some([Road(1.0)]) && EdgesBetween(Detour(), 1, 3) == Some([Road(1.0)])
  {
    var G := Detour();
    assert G.adj[0][1..] == [Link(2, [Road(1.0)])];
  }

  /** Links whose every entry is one road of non-negative length to a node of the graph, with no target twice. */
  lemma {:induction false} RoadLinks(G: Graph, links: seq<Link>, ws: seq<real>)
    requires |ws| == |links| && Distinct(Targets(links))
    requires forall i :: 0 <= i < |links| ==> HasNode(G, links[i].to) && links[i].edges == [Road(ws[i])] && ws[i] >= 0.0
    ensures WellFormedLinks(G, links)
  {
    forall i, k, a | 0 <= i < |links| && 0 <= k < |links[i].edges| && a in links[i].edges[k].attrs
      ensures links[i].edges[k].attrs[a] >= 0.0
    {
      assert links[i].edges[k] == Road(ws[i]);
    }
  }

  lemma {:induction false} DetourIds()
    ensures Ids(Detour().nodes) == [0, 1, 2, 3]
    ensures forall id :: HasNode(Detour(), id) <==> 0 <= id <= 3
  {
  }

  lemma {:induction false} DetourLinksAt(id: NodeId)
    requires 0 <= id <= 3
    ensures id in Detour().adj && WellFormedLinks(Detour(), Detour().adj[id])
  {
    DetourIds();
    var G := Detour();
    if id == 0 {
      RoadLinks(G, G.adj[0], [10.0, 1.0]);
    } else if id == 1 {
      RoadLinks(G, G.adj[1], [1.0]);
    } else if id == 2 {
      RoadLinks(G, G.adj[2], [1.0]);
    } else {
      RoadLinks(G, G.adj[3], []);
    }
  }

  lemma {:induction false} DetourWellFormed()
    ensures WellFormed(Detour())
  {
    DetourIds();
    var G := Detour();
    assert G.adj.Keys == {0, 1, 2, 3};
    forall id | id in G.adj ensures WellFormedLinks(G, G.adj[id]) {
      DetourLinksAt(id);
    }
  }

  lemma {:induction false} DetourPath()
    ensures IsGraphPath(Detour(), [0, 2, 1, 3], 0, 3)
  {
    DetourShape();
  }

  // ---------------------------------------------------------------------------------------
  // The trace from 0 to 3, Dijkstra's zero heuristic, weight "length", on any graph shaped like `Detour()`

  /** What the trace reads of the graph. */
  predicate DetourLike(G: Graph) {
    && HasNode(G, 0) && HasNode(G, 1) && HasNode(G, 2) && HasNode(G, 3)
    && Neighbors(G, 0) == [1, 2] && Neighbors(G, 1) == [3] && Neighbors(G, 2) == [1]
    && EdgesBetween(G, 0, 1) == Some([Road(10.0)]) && EdgesBetween(G, 0, 2) == Some([Road(1.0)])
    && EdgesBetween(G, 2, 1) == Some([Road(1.0)]) && EdgesBetween(G, 1, 3) == Some([Road(1.0)])
  }

  lemma {:induction false} DetourIsDetourLike()
    ensures DetourLike(Detour())
  {
    DetourIds();
    DetourShape();
  }

  /** The costs at the start: 0 at 0, infinity at 1, 2 and 3. */
  predicate StartCosts(g0: map<NodeId, Dist>) {
    && 0 in g0 && 1 in g0 && 2 in g0 && 3 in g0
    && g0[0] == Fin(0.0) && g0[1] == Inf && g0[2] == Inf && g0[3] == Inf
  }

  function S0(g0: map<NodeId, Dist>): State {
    State([Entry(0.0, 0)], {0}, map[], g0, 0, map[], 1)
  }

  /** After popping 0: 1 reached at 10, 2 at 1, both queued. */
  function S1(g0: map<NodeId, Dist>): State {
    State([Entry(10.0, 1), Entry(1.0, 2)], {1, 2}, map[1 := 0, 2 := 0], g0[1 := Fin(10.0)][2 := Fin(1.0)], 1,
          map[1 := 1, 2 := 2], 3)
  }

  /** After popping 2: 1 improved to 2 through 2, but already queued, so its entry keeps priority 10. */
  function S2(g0: map<NodeId, Dist>): State {
    State([Entry(10.0, 1)], {1}, S1(g0).cameFrom[1 := 2], S1(g0).g[1 := Fin(2.0)], 2, S1(g0).stamp[1 := 3], 4)
  }

  /** After popping 1's entry: the heap is empty. */
  function S3(g0: map<NodeId, Dist>): State {
    S2(g0).(heap := [], hash := {}, visited := 3)
  }

  /** Without the skip, popping 1 relaxes 1 -> 3 and queues the goal. */
  function T3(g0: map<NodeId, Dist>): State {
    State([Entry(3.0, 3)], {3}, S2(g0).cameFrom[3 := 1], S2(g0).g[3 := Fin(3.0)], 3, S2(g0).stamp[3 := 4], 5)
  }

  /** The searches start from `S0` of the initial costs. */
  lemma {:induction false} InitIsS0(G: Graph)
    requires DetourLike(G)
    ensures Init(G, Zero, 0) == S0(Init(G, Zero, 0).g) && StartCosts(Init(G, Zero, 0).g)
  {
  }

  lemma {:induction false} FirstRelax(G: Graph, g0: map<NodeId, Dist>)
    requires DetourLike(G) && StartCosts(g0)
    ensures var p := Popped(S0(g0));
      RelaxOne(G, "length", Zero, p, 0, 1) ==
        Some(p.(cameFrom := map[1 := 0], g := g0[1 := Fin(10.0)], stamp := map[1 := 1], clock := 2,
                heap := [Entry(10.0, 1)], hash := {1}))
  {
    RoadCost(10.0);
    var p := Popped(S0(g0));
    assert p.heap == [] && p.hash == {} && p.g == S0(g0).g;
    var q := RelaxOne(G, "length", Zero, p, 0, 1);
    assert q.Some?;
    assert q.value.heap == [Entry(10.0, 1)];
    assert q.value.hash == {1};
    assert q.value.g == g0[1 := Fin(10.0)];
    assert q.value.stamp == map[1 := 1];
    assert q.value.cameFrom == map[1 := 0];
    assert q.value.clock == 2;
  }

  lemma {:induction false} FirstStep(G: Graph, g0: map<NodeId, Dist>, skipStale: bool)
    requires DetourLike(G) && StartCosts(g0)
    ensures Step(G, "length", Zero, skipStale, 0, 3, S0(g0)) == Continue(S1(g0))
  {
    RoadCost(1.0);
    FirstRelax(G, g0);
    var st := S0(g0);
    assert Top(st) == Entry(0.0, 0);
    var p := Popped(st);
    var r1 := p.(cameFrom := map[1 := 0], g := g0[1 := Fin(10.0)], stamp := map[1 := 1], clock := 2,
                 heap := [Entry(10.0, 1)], hash := {1});
    var q := RelaxOne(G, "length", Zero, r1, 0, 2);
    assert q.Some?;
    assert q.value.heap == [Entry(10.0, 1), Entry(1.0, 2)];
    assert q.value.hash == {1, 2};
    assert q.value.g == S1(g0).g;
    assert q.value.stamp == map[1 := 1, 2 := 2];
    assert q.value.cameFrom == map[1 := 0, 2 := 0];
    assert q.value.clock == 3 && q.value.visited == 1;
    assert RelaxAll(G, "length", Zero, p, 0, [1, 2]) == Some(S1(g0));
  }

  /** Popping `S1` takes 2's entry, the one of least priority. */
  lemma {:induction false} SecondPop(g0: map<NodeId, Dist>)
    ensures Top(S1(g0)) == Entry(1.0, 2)
    ensures Popped(S1(g0)) == S1(g0).(heap := [Entry(10.0, 1)], hash := {1}, visited := 2)
  {
    assert MinAt(S1(g0).heap) == 1;
  }

  lemma {:induction false} SecondRelax(G: Graph, g0: map<NodeId, Dist>)
    requires DetourLike(G) && StartCosts(g0)
    ensures RelaxOne(G, "length", Zero, Popped(S1(g0)), 2, 1) == Some(S2(g0))
  {
    RoadCost(1.0);
    SecondPop(g0);
    var p := S1(g0).(heap := [Entry(10.0, 1)], hash := {1}, visited := 2);
    assert p.g[2] == Fin(1.0) && p.g[1] == Fin(10.0);
    var q := RelaxOne(G, "length", Zero, p, 2, 1);
    assert q.Some?;
    assert q.value.heap == [Entry(10.0, 1)];
    assert q.value.hash == {1};
    assert q.value.g == S2(g0).g;
    assert q.value.stamp == S2(g0).stamp;
    assert q.value.cameFrom == S2(g0).cameFrom;
    assert q.value.clock == 4 && q.value.visited == 2;
  }

  lemma {:induction false} SecondStep(G: Graph, g0: map<NodeId, Dist>, skipStale: bool)
    requires DetourLike(G) && StartCosts(g0)
    ensures Step(G, "length", Zero, skipStale, 0, 3, S1(g0)) == Continue(S2(g0))
  {
    SecondRelax(G, g0);
    var st := S1(g0);
    assert MinAt(st.heap) == 1;
    assert Top(st) == Entry(1.0, 2);
    var p := Popped(st);
    assert RelaxAll(G, "length", Zero, p, 2, [1]) == Some(S2(g0));
  }

  /** Dijkstra pops 1's entry (priority 10, cost now 2) and skips it. */
  lemma {:induction false} ThirdStepSkips(G: Graph, g0: map<NodeId, Dist>)
    requires DetourLike(G) && StartCosts(g0)
    ensures Step(G, "length", Zero, true, 0, 3, S2(g0)) == Continue(S3(g0))
  {
    assert Top(S2(g0)) == Entry(10.0, 1);
    assert S2(g0).g[1] == Fin(2.0);
  }

  lemma {:induction false} ThirdRelax(G: Graph, g0: map<NodeId, Dist>)
    requires DetourLike(G) && StartCosts(g0)
    ensures Popped(S2(g0)) == S3(g0)
    ensures RelaxOne(G, "length", Zero, S3(g0), 1, 3) == Some(T3(g0))
  {
    RoadCost(1.0);
    var p := S3(g0);
    assert p.g[1] == Fin(2.0) && p.g[3] == Inf;
    var q := RelaxOne(G, "length", Zero, p, 1, 3);
    assert q.Some?;
    assert q.value.heap == [Entry(3.0, 3)];
    assert q.value.hash == {3};
    assert q.value.g == T3(g0).g;
    assert q.value.stamp == T3(g0).stamp;
    assert q.value.cameFrom == T3(g0).cameFrom;
    assert q.value.clock == 5 && q.value.visited == 3;
  }

  /** Without the skip, 1 is relaxed and the goal queued. */
  lemma {:induction false} ThirdStepRelaxes(G: Graph, g0: map<NodeId, Dist>)
    requires DetourLike(G) && StartCosts(g0)
    ensures Step(G, "length", Zero, false, 0, 3, S2(g0)) == Continue(T3(g0))
  {
    ThirdRelax(G, g0);
    assert Top(S2(g0)) == Entry(10.0, 1);
    assert RelaxAll(G, "length", Zero, S3(g0), 1, [3]) == Some(T3(g0));
  }

  /** Walking `came_from` back from 3 meets 1, 2 and stops at 0. */
  lemma {:induction false} BacktrackDetour(cf: map<NodeId, NodeId>, n: nat)
    requires 3 in cf && 1 in cf && 2 in cf && 0 !in cf && cf[3] == 1 && cf[1] == 2 && cf[2] == 0 && n >= 3
    ensures Backtrack(cf, 3, n) == Some([2, 1, 3])
  {
    assert Backtrack(cf, 0, n - 3) == Some([]);
    assert [] + [2] == [2] && [2] + [1] == [2, 1] && [2, 1] + [3] == [2, 1, 3];
    assert Backtrack(cf, 2, n - 2) == Some([2]);
    assert Backtrack(cf, 1, n - 1) == Some([2, 1]);
  }

  /** Popping the goal from `T3`: its `came_from` walks back 3 -> 1 -> 2 -> 0 within `|g_score|` steps. */
  lemma {:induction false} FourthPop(g0: map<NodeId, Dist>)
    requires StartCosts(g0)
    ensures Top(T3(g0)) == Entry(3.0, 3) && Popped(T3(g0)).visited == 4
    ensures Backtrack(Popped(T3(g0)).cameFrom, 3, |Popped(T3(g0)).g|) == Some([2, 1, 3])
  {
    var p := Popped(T3(g0));
    assert {0, 1, 2, 3} <= p.g.Keys;
    SubsetNoLarger({0, 1, 2, 3}, p.g.Keys);
    BacktrackDetour(p.cameFrom, |p.g|);
  }

  /** Popping the goal walks `came_from` 3 -> 1 -> 2 -> 0. */
  lemma {:induction false} FourthStepFinds(G: Graph, g0: map<NodeId, Dist>)
    requires DetourLike(G) && StartCosts(g0)
    ensures Step(G, "length", Zero, false, 0, 3, T3(g0)) == Done(Found([0, 2, 1, 3], 4))
  {
    FourthPop(g0);
    assert [0] + [2, 1, 3] == [0, 2, 1, 3];
  }

  /** `dijkstra_path` as written reports no path from 0 to 3 on `Detour()`, after three pops, although
      0 -> 2 -> 1 -> 3 is a path of this well-formed graph. */
  lemma {:induction false} DijkstraMissesDetour()
    ensures WellFormed(Detour()) && IsGraphPath(Detour(), [0, 2, 1, 3], 0, 3)
    ensures DijkstraPy(Detour(), 0, 3, "length", 10) == NoPath(3)
  {
    DetourWellFormed();
    DetourPath();
    DetourIsDetourLike();
    var G := Detour();
    InitIsS0(G);
    var g0 := Init(G, Zero, 0).g;
    FirstStep(G, g0, true);
    SecondStep(G, g0, true);
    ThirdStepSkips(G, g0);
    assert Run(G, "length", Zero, true, 0, 3, S3(g0), 7) == NoPath(3);
    assert Run(G, "length", Zero, true, 0, 3, S2(g0), 8) == NoPath(3);
    assert Run(G, "length", Zero, true, 0, 3, S1(g0), 9) == NoPath(3);
  }

  /** The corrected search finds the path 0 -> 2 -> 1 -> 3 after four pops. */
  lemma {:induction false} DijkstraFixedFindsDetour()
    ensures DijkstraFixed(Detour(), 0, 3, "length", 10) == Found([0, 2, 1, 3], 4)
  {
    DetourIsDetourLike();
    var G := Detour();
    InitIsS0(G);
    var g0 := Init(G, Zero, 0).g;
    FirstStep(G, g0, false);
    SecondStep(G, g0, false);
    ThirdStepRelaxes(G, g0);
    FourthStepFinds(G, g0);
    assert Run(G, "length", Zero, false, 0, 3, T3(g0), 7) == Found([0, 2, 1, 3], 4);
    assert Run(G, "length", Zero, false, 0, 3, S2(g0), 8) == Found([0, 2, 1, 3], 4);
    assert Run(G, "length", Zero, false, 0, 3, S1(g0), 9) == Found([0, 2, 1, 3], 4);
  }

  /** The corrected search returns only paths of the graph, reports no path only when none exists, and raises
      only for a start outside the graph that is not the goal. */
  lemma {:induction false} DijkstraFixedCorrect(graph: Graph, start: NodeId, goal: NodeId, key: string, fuel: nat)
    requires WellFormed(graph)
    ensures var r := DijkstraFixed(graph, start, goal, key, fuel);
      && (r.Found? ==> IsGraphPath(graph, r.path, start, goal))
      && (r.NoPath? ==> forall p :: !IsGraphPath(graph, p, start, goal))
      && (r.Raised? <==> fuel > 0 && !HasNode(graph, start) && start != goal)
  {
    PySearchFound(graph, start, goal, Zero, false, key, fuel);
    AStarPyComplete(graph, start, goal, Zero, key, fuel);
    AStarPyRaises(graph, start, goal, Zero, key, fuel);
  }
}
