/**
 * The dispatcher of the service's route search: the accelerated search on cached compact arrays when the
 * extension is available, the NetworkX search otherwise or when a node is unknown to the arrays, and the
 * distance of the found path recomputed on the original graph.
 */
module Routing {
  import opened Wrappers
  import opened RoadGraph
  import opened Csr
  import opened CppSearch
  import opened GraphCache

  /** What `nx.astar_path` does; NetworkX is outside this model, so its answer is an input. */
  datatype NxAnswer = NxPath(p: seq<NodeId>) | NxNoPath | NxNodeNotFound

  /** What NetworkX guarantees of its answer: a path joins start to goal, "no path" is only reported between two
      nodes of the graph, and an unknown node is reported as such. */
  predicate NxFaithful(g: Graph, start: NodeId, goal: NodeId, nx: NxAnswer) {
    match nx
    case NxPath(p) => HasNode(g, start) && HasNode(g, goal) && IsGraphPath(g, p, start, goal)
    case NxNoPath => HasNode(g, start) && HasNode(g, goal)
    case NxNodeNotFound => !HasNode(g, start) || !HasNode(g, goal)
  }

  /** `(path, total_distance, nodes_visited)`, or an exception that leaves `astar_path`. */
  datatype Reply = Reply(path: Option<seq<NodeId>>, distance: Dist, visited: int) | Raised

  /** `(None, float('inf'), 0)` */
  const NoRoute := Reply(None, Inf, 0)

  /** A found path with its distance summed over the original graph and a visited count of -1; the distance loop
      raises when a consecutive pair has no edge data. */
  function Found(g: Graph, p: seq<NodeId>, key: string): Reply {
    match PathDistance(g, p, key)
    case None => Raised
    case Some(d) => Reply(Some(p), Fin(d), -1)
  }

  /** A found path that starts and ends at the requested nodes is a path of the graph, reported with its
      recomputed distance; on a well-formed graph a graph path is always reported. */
  lemma {:induction false} FoundIsGraphPath(g: Graph, p: seq<NodeId>, key: string, start: NodeId, goal: NodeId)
    requires |p| >= 1 && p[0] == start && p[|p| - 1] == goal
    ensures Found(g, p, key).Reply? ==>
      && IsGraphPath(g, p, start, goal)
      && Found(g, p, key) == Reply(Some(p), Fin(PathDistance(g, p, key).value), -1)
    ensures WellFormed(g) && IsGraphPath(g, p, start, goal) ==> Found(g, p, key).Reply?
  {
    PathDistanceDefined(g, p, key);
    if WellFormed(g) && IsGraphPath(g, p, start, goal) {
      PathDistanceOfGraphPath(g, p, key);
    }
  }

  /** A reply reports a path of the graph from `start` to `goal` with its distance over the graph and a visited
      count of -1, or no route, or an exception. */
  predicate Reported(g: Graph, key: string, start: NodeId, goal: NodeId, r: Reply) {
    && (r.Reply? && r.path.Some? ==>
          && IsGraphPath(g, r.path.value, start, goal)
          && r.distance.Fin? && PathDistance(g, r.path.value, key) == Some(r.distance.val) && r.visited == -1)
    && (r.Reply? && r.path.None? ==> r == NoRoute)
  }

  /** The NetworkX branch. */
  function NxReply(g: Graph, key: string, nx: NxAnswer): Reply {
    match nx
    case NxPath(p) => Found(g, p, key)
    case NxNoPath => NoRoute
    case NxNodeNotFound => Raised
  }

  /** On a well-formed graph the NetworkX branch raises exactly for an unknown node, and otherwise reports the
      path NetworkX found with its distance, or no route. */
  lemma {:induction false} NxReplyCases(g: Graph, start: NodeId, goal: NodeId, key: string, nx: NxAnswer)
    requires WellFormed(g) && NxFaithful(g, start, goal, nx)
    ensures NxReply(g, key, nx).Raised? <==> !HasNode(g, start) || !HasNode(g, goal)
    ensures nx.NxPath? ==>
      PathDistance(g, nx.p, key).Some? && NxReply(g, key, nx) == Reply(Some(nx.p), Fin(PathDistance(g, nx.p, key).value), -1)
    ensures nx.NxNoPath? ==> NxReply(g, key, nx) == NoRoute
  {
    if nx.NxPath? {
      FoundIsGraphPath(g, nx.p, key, start, goal);
    }
  }

  /** `[idx_to_node[i] for i in path_indices]`; None for the `KeyError` of an index the table lacks. */
  function ToIds(idxToNode: map<nat, NodeId>, ix: seq<nat>): (r: Option<seq<NodeId>>)
    ensures r.Some? <==> forall i :: 0 <= i < |ix| ==> ix[i] in idxToNode
    ensures r.Some? ==> |r.value| == |ix| && forall i :: 0 <= i < |ix| ==> r.value[i] == idxToNode[ix[i]]
  {
    if forall i :: 0 <= i < |ix| ==> ix[i] in idxToNode then Some(seq(|ix|, i requires 0 <= i < |ix| => idxToNode[ix[i]]))
    else None
  }

  /** The accelerated branch once the search returned the index path `ix`: an empty result and an index unknown to
      the table are both caught and answered with no route; otherwise the path is reported. */
  function CppReply(g: Graph, e: Compact, key: string, ix: seq<nat>): Reply {
    if ix == [] then NoRoute
    else
      match ToIds(e.idxToNode, ix)
      case None => NoRoute
      case Some(p) => Found(g, p, key)
  }

  /** How a reply came about: through NetworkX, or through the accelerated search with the index path it returned
      and whether its pop budget ran out. */
  datatype Trace = Fallback | Accelerated(indices: seq<nat>, exhausted: bool)

  /** Every node of a walk through valid arrays is a node index of the arrays. */
  lemma {:induction false} WalkNodesInRange(c: Csr, nodes: seq<nat>, slots: seq<nat>, s: nat, t: nat)
    requires ValidCsr(c) && t < c.n && WalkFromTo(c, nodes, slots, s, t)
    ensures forall i :: 0 <= i < |nodes| ==> nodes[i] < c.n
  {
    forall i | 0 <= i < |nodes| ensures nodes[i] < c.n {
      if i < |slots| {
        assert InRow(c, nodes[i], slots[i]);
      }
    }
  }

  /** On arrays built from a well-formed graph, a walk between two indices translates to a path of the graph. */
  lemma {:induction false} WalkIsGraphPath(g: Graph, k: string, ix: seq<nat>, slots: seq<nat>, s: nat, t: nat)
    requires WellFormed(g) && t < |g.nodes|
    requires Convertible(g) && WalkFromTo(Prepare(g, k).csr, ix, slots, s, t)
    ensures ToIds(Prepare(g, k).idxToNode, ix).Some?
    ensures var p := ToIds(Prepare(g, k).idxToNode, ix).value;
      |p| >= 1 && forall i :: 0 <= i < |p| - 1 ==> EdgesBetween(g, p[i], p[i + 1]).Some?
  {
    var e := Prepare(g, k);
    PreparedEntryOk(g, k);
    PrepareShape(g, k);
    PrepareIndexInverse(g, k);
    PrepareIndexDomain(g, k);
    WalkNodesInRange(e.csr, ix, slots, s, t);
    var p := ToIds(e.idxToNode, ix).value;
    forall i | 0 <= i < |p| - 1 ensures EdgesBetween(g, p[i], p[i + 1]).Some? {
      WalkStep(g, k, ix, slots, i);
    }
  }

  lemma {:induction false} WalkStep(g: Graph, k: string, ix: seq<nat>, slots: seq<nat>, i: nat)
    requires WellFormed(g) && Convertible(g) && IsWalk(Prepare(g, k).csr, ix, slots) && i < |slots|
    requires forall j :: 0 <= j < |ix| ==> ix[j] < |g.nodes|
    ensures ToIds(Prepare(g, k).idxToNode, ix).Some?
    ensures var p := ToIds(Prepare(g, k).idxToNode, ix).value; EdgesBetween(g, p[i], p[i + 1]).Some?
  {
    var e := Prepare(g, k);
    PrepareIndexDomain(g, k);
    PrepareTables(g, k);
    assert InRow(e.csr, ix[i], slots[i]) && e.csr.cols[slots[i]] == ix[i + 1];
    NodeLinks(g, ix[i]);
    PrepareSlot(g, k, ix[i], slots[i]);
  }

  /** The arrays stored for `gid` were built from the graph `g` itself (with some key). */
  ghost predicate Fresh(cache: Cache, gid: nat, g: Graph) {
    gid in cache && Convertible(g) && exists k :: cache[gid] == Prepare(g, k)
  }

  /** `astar_path(graph, start, goal, heuristic, weight)`: `cppAvailable` says whether the extension loaded,
      `gid` is the identity of `g`, `h` the straight-line heuristic of the accelerated search (already aimed at
      the goal), `nx` what NetworkX would answer, and `fuel` bounds the pops of the accelerated search. */
  method AStarPath(cppAvailable: bool, cache: Cache, gid: nat, g: Graph, start: NodeId, goal: NodeId,
                   h: nat -> real, key: string, nx: NxAnswer, fuel: nat)
    returns (reply: Reply, cache': Cache, trace: Trace)
    requires WellFormed(g) && CacheOk(cache) && NxFaithful(g, start, goal, nx)
    ensures CacheOk(cache')
    ensures !cppAvailable ==> cache' == cache && trace == Fallback
    ensures cppAvailable ==> Convertible(g) && cache' == Lookup(cache, gid, g, key).0
    ensures cppAvailable ==>
      (trace.Fallback? <==> start !in cache'[gid].nodeToIdx || goal !in cache'[gid].nodeToIdx)
    ensures trace.Fallback? ==> reply == NxReply(g, key, nx)
    ensures trace.Accelerated? ==>
      cppAvailable && gid in cache' && start in cache'[gid].nodeToIdx && goal in cache'[gid].nodeToIdx
    ensures trace.Accelerated? ==>
      var c := cache'[gid].csr; var s := cache'[gid].nodeToIdx[start]; var t := cache'[gid].nodeToIdx[goal];
      && s < c.n && t < c.n
      && reply == CppReply(g, cache'[gid], key, trace.indices)
      && (trace.exhausted ==> trace.indices == [])
      && (trace.indices != [] ==> exists slots :: WalkFromTo(c, trace.indices, slots, s, t))
      && (trace.indices != [] && Consistent(c, h) ==> ShortestWalk(c, trace.indices, s, t))
      && (trace.indices == [] && !trace.exhausted ==> !Reachable(c, s, t))
    ensures Reported(g, key, start, goal, reply)
  {
    if cppAvailable {
      LookupKeepsOk(cache, gid, g, key);
      var e;
      cache', e := Lookup(cache, gid, g, key).0, Lookup(cache, gid, g, key).1;
      if start in e.nodeToIdx && goal in e.nodeToIdx {
        var s, t := e.nodeToIdx[start], e.nodeToIdx[goal];
        var ix, exhausted := AStarCpp(e.csr, h, s, t, fuel);
        reply := CppReply(g, e, key, ix);
        trace := Accelerated(ix, exhausted);
        if ix != [] {
          CppReplyEnds(g, e, key, ix, start, goal);
        }
        return;
      }
    } else {
      cache' := cache;
    }
    reply := NxReply(g, key, nx);
    trace := Fallback;
    NxReplyEnds(g, key, nx, start, goal);
  }

  lemma {:induction false} NxReplyEnds(g: Graph, key: string, nx: NxAnswer, start: NodeId, goal: NodeId)
    requires NxFaithful(g, start, goal, nx)
    ensures Reported(g, key, start, goal, NxReply(g, key, nx))
  {
    if nx.NxPath? {
      FoundIsGraphPath(g, nx.p, key, start, goal);
    }
  }

  /** A path the accelerated branch reports starts at `start` and ends at `goal`, since the id table translates
      their indices back. */
  lemma {:induction false} CppReplyEnds(g: Graph, e: Compact, key: string, ix: seq<nat>, start: NodeId, goal: NodeId)
    requires EntryOk(e) && start in e.nodeToIdx && goal in e.nodeToIdx
    requires ix != [] && ix[0] == e.nodeToIdx[start] && ix[|ix| - 1] == e.nodeToIdx[goal]
    ensures Reported(g, key, start, goal, CppReply(g, e, key, ix))
  {
    var ids := ToIds(e.idxToNode, ix);
    if ids.Some? {
      FoundIsGraphPath(g, ids.value, key, start, goal);
    }
  }

  /** With arrays built from the graph itself and both nodes in it, the accelerated branch is taken and never
      raises: it reports a path of the graph, or no route when the goal cannot be reached through the arrays. */
  lemma {:induction false} FreshNeverRaises(g: Graph, k: string, key: string, ix: seq<nat>, start: NodeId, goal: NodeId)
    requires WellFormed(g) && HasNode(g, start) && HasNode(g, goal)
    requires Convertible(g)
    requires var e := Prepare(g, k);
      && start in e.nodeToIdx && goal in e.nodeToIdx && e.nodeToIdx[goal] < |g.nodes|
      && (ix != [] ==> exists slots :: WalkFromTo(e.csr, ix, slots, e.nodeToIdx[start], e.nodeToIdx[goal]))
    ensures CppReply(g, Prepare(g, k), key, ix).Reply?
  {
    var e := Prepare(g, k);
    if ix != [] {
      var slots :| WalkFromTo(e.csr, ix, slots, e.nodeToIdx[start], e.nodeToIdx[goal]);
      WalkIsGraphPath(g, k, ix, slots, e.nodeToIdx[start], e.nodeToIdx[goal]);
      var p := ToIds(e.idxToNode, ix).value;
      PathDistanceOfGraphPath(g, p, key);
      TranslatedReplies(g, e, key, ix);
    }
  }

  /** A non-empty index path that translates back to a path with a distance is reported, not raised. */
  lemma {:induction false} TranslatedReplies(g: Graph, e: Compact, key: string, ix: seq<nat>)
    requires ix != [] && ToIds(e.idxToNode, ix).Some? && PathDistance(g, ToIds(e.idxToNode, ix).value, key).Some?
    ensures CppReply(g, e, key, ix).Reply?
  {
  }

  /** With arrays built from the graph itself, both nodes in the graph and the search not cut short, the reply is a
      path of the graph with its distance or no route, never an exception. */
  lemma {:induction false} AStarPathFresh(g: Graph, cache': Cache, gid: nat, key: string, trace: Trace, reply: Reply,
                                          start: NodeId, goal: NodeId)
    requires WellFormed(g) && HasNode(g, start) && HasNode(g, goal) && Fresh(cache', gid, g)
    requires trace.Accelerated?
    requires var c := cache'[gid].csr; var s := cache'[gid].nodeToIdx[start]; var t := cache'[gid].nodeToIdx[goal];
      && start in cache'[gid].nodeToIdx && goal in cache'[gid].nodeToIdx
      && reply == CppReply(g, cache'[gid], key, trace.indices)
      && (trace.indices != [] ==> exists slots :: WalkFromTo(c, trace.indices, slots, s, t))
    ensures reply.Reply?
  {
    var k :| cache'[gid] == Prepare(g, k);
    PrepareShape(g, k);
    PrepareIndexDomain(g, k);
    PrepareTables(g, k);
    FreshNeverRaises(g, k, key, trace.indices, start, goal);
  }

  /** A connection none of whose parallel edges carries the key costs 0 to the Python searches, which add
      `.get(weight, 0)`, but is dropped from the compact arrays, so the accelerated search cannot take it. */
  lemma {:induction false} KeylessDivergence(g: Graph, key: string, i: nat, l: nat)
    requires WellFormed(g) && i < |g.nodes|
    requires g.nodes[i].id in g.adj && l < |g.adj[g.nodes[i].id]|
    requires MinKey(g.adj[g.nodes[i].id][l].edges, key).None?
    ensures var u, link := g.nodes[i].id, g.adj[g.nodes[i].id][l];
      && EdgesBetween(g, u, link.to) == Some(link.edges) && |link.edges| > 0
      && EdgeCost(link.edges, key) == 0.0
    ensures Convertible(g)
    ensures var c := Prepare(g, key); var link := g.adj[g.nodes[i].id][l];
      && link.to in c.nodeToIdx
      && forall j :: c.csr.rowPtr[i] <= j < c.csr.rowPtr[i + 1] ==> c.csr.cols[j] != c.nodeToIdx[link.to]
  {
    NodeLinks(g, i);
    var links := g.adj[g.nodes[i].id];
    assert WellFormedLinks(g, links);
    FindLinkAt(links, l);
    EdgeCostIsMinOrZero(links[l].edges, key);
    PrepareKeylessNeighbour(g, key, i, l);
  }
}
