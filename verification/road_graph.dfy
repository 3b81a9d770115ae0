/**
 * The road network handed over by the map provider: a directed multigraph whose
 * nodes carry planar coordinates and whose edges carry named numeric attributes,
 * together with the weight model that collapses parallel edges.
 */
module RoadGraph {
  import opened Wrappers

  type NodeId = int

  /** A textual edge attribute that OSM may give as one value or as a list of values. */
  datatype Tag = Absent | One(s: string) | Many(first: string, rest: seq<string>)

  /** One edge: its numeric attributes (`length`, `travel_time`, `weight_time`, `speed_kph`, ...),
      its `surface` and its street `name`. */
  datatype Edge = Edge(attrs: map<string, real>, surface: Tag, name: Tag)

  datatype Node = Node(id: NodeId, x: real, y: real)

  /** One adjacency entry of a node: a neighbour and its parallel edges in edge-key order
      (the edge key of `edges[k]` is `k`). */
  datatype Link = Link(to: NodeId, edges: seq<Edge>)

  /** Nodes in iteration order; for every node its adjacency entries in iteration order. */
  datatype Graph = Graph(nodes: seq<Node>, adj: map<NodeId, seq<Link>>)

  function Ids(ns: seq<Node>): (r: seq<NodeId>)
    ensures |r| == |ns|
    ensures forall i :: 0 <= i < |ns| ==> r[i] == ns[i].id
  {
    if ns == [] then [] else [ns[0].id] + Ids(ns[1..])
  }

  function Targets(links: seq<Link>): (r: seq<NodeId>)
    ensures |r| == |links|
    ensures forall i :: 0 <= i < |links| ==> r[i] == links[i].to
  {
    if links == [] then [] else [links[0].to] + Targets(links[1..])
  }

  predicate Distinct<T(==)>(s: seq<T>) {
    forall i, j :: 0 <= i < j < |s| ==> s[i] != s[j]
  }

  predicate HasNode(g: Graph, id: NodeId) {
    id in Ids(g.nodes)
  }

  /** What NetworkX guarantees of a MultiDiGraph, plus non-negative attribute values. */
  ghost predicate WellFormed(g: Graph) {
    && Distinct(Ids(g.nodes))
    && (forall id :: id in g.adj <==> HasNode(g, id))
    && (forall id {:trigger g.adj[id]} :: id in g.adj ==> WellFormedLinks(g, g.adj[id]))
  }

  ghost predicate WellFormedLinks(g: Graph, links: seq<Link>) {
    && Distinct(Targets(links))
    && (forall i :: 0 <= i < |links| ==> HasNode(g, links[i].to) && |links[i].edges| > 0)
    && NonNegativeLinks(links)
  }

  /** Every numeric attribute of every parallel edge is non-negative. */
  ghost predicate NonNegativeLinks(links: seq<Link>) {
    forall i, k, a :: 0 <= i < |links| && 0 <= k < |links[i].edges| && a in links[i].edges[k].attrs ==>
      links[i].edges[k].attrs[a] >= 0.0
  }

  /** `graph.neighbors(u)` */
  function Neighbors(g: Graph, u: NodeId): seq<NodeId> {
    if u in g.adj then Targets(g.adj[u]) else []
  }

  function FindLink(links: seq<Link>, v: NodeId): (r: Option<seq<Edge>>)
    ensures r.Some? <==> v in Targets(links)
    ensures r.Some? ==> exists i :: 0 <= i < |links| && links[i].to == v && links[i].edges == r.value
  {
    if links == [] then None
    else if links[0].to == v then Some(links[0].edges)
    else FindLink(links[1..], v)
  }

  /** With distinct neighbours, looking a neighbour up finds its own adjacency entry. */
  lemma {:induction false} FindLinkAt(links: seq<Link>, l: nat)
    requires Distinct(Targets(links)) && l < |links|
    ensures FindLink(links, links[l].to) == Some(links[l].edges)
    decreases |links|
  {
    if l > 0 {
      assert Targets(links)[0] != Targets(links)[l];
      assert Targets(links[1..]) == Targets(links)[1..];
      assert links[1..][l - 1] == links[l];
      FindLinkAt(links[1..], l - 1);
    }
  }

  /** `graph.get_edge_data(u, v)`: the parallel edges from u to v, or None. */
  function EdgesBetween(g: Graph, u: NodeId, v: NodeId): (r: Option<seq<Edge>>)
    ensures r.Some? <==> v in Neighbors(g, u)
  {
    if u in g.adj then FindLink(g.adj[u], v) else None
  }

  // ---------------------------------------------------------------------------------------
  // Weight model

  /** A `g_score` entry of the searches: a finite cost or `infinity`. */
  datatype Dist = Fin(val: real) | Inf

  /** `tentative_g < g_score[v]` */
  predicate Improves(t: real, d: Dist) {
    d.Inf? || t < d.val
  }

  /** `attrs.get(key)`; None stands for the missing key, which the sources treat as infinite. */
  function KeyWeight(e: Edge, key: string): Option<real> {
    if key in e.attrs then Some(e.attrs[key]) else None
  }

  /** Strict "less than" on weights where None is +infinity (`w < min_w` in the sources). */
  predicate Below(a: Option<real>, b: Option<real>) {
    a.Some? && (b.None? || a.value < b.value)
  }

  /** The running minimum of the index builder: start from `acc` and lower it by each edge's key. */
  function MinKeyFrom(es: seq<Edge>, key: string, acc: Option<real>): (r: Option<real>)
    ensures r.None? <==> acc.None? && forall i :: 0 <= i < |es| ==> KeyWeight(es[i], key).None?
    ensures r.Some? ==> r == acc || exists i :: 0 <= i < |es| && KeyWeight(es[i], key) == r
    ensures r.Some? && acc.Some? ==> r.value <= acc.value
    ensures forall i :: 0 <= i < |es| && KeyWeight(es[i], key).Some? ==> r.Some? && r.value <= KeyWeight(es[i], key).value
  {
    if es == [] then acc
    else
      var w := KeyWeight(es[0], key);
      MinKeyFrom(es[1..], key, if Below(w, acc) then w else acc)
  }

  /** The minimum of `key` over a set of parallel edges (missing = infinite); None when every edge lacks it. */
  function MinKey(es: seq<Edge>, key: string): (r: Option<real>)
    ensures r.None? <==> forall i :: 0 <= i < |es| ==> KeyWeight(es[i], key).None?
    ensures r.Some? ==> exists i :: 0 <= i < |es| && KeyWeight(es[i], key) == r
    ensures forall i :: 0 <= i < |es| && KeyWeight(es[i], key).Some? ==> r.value <= KeyWeight(es[i], key).value
  {
    MinKeyFrom(es, key, None)
  }

  /** Python's `min(edges, key=lambda e: e.get(key, inf))`, scanning from the current best. */
  function SelectFrom(es: seq<Edge>, key: string, best: Edge): Edge
  {
    if es == [] then best
    else SelectFrom(es[1..], key, if Below(KeyWeight(es[0], key), KeyWeight(best, key)) then es[0] else best)
  }

  /** The first edge of least `key` value (the one `min` returns). */
  function SelectEdge(es: seq<Edge>, key: string): Edge
    requires |es| > 0
  {
    SelectFrom(es[1..], key, es[0])
  }

  /** `SelectEdge(...).get(key, 0)`: the cost of a connection in the Python searches and distance sums. */
  function EdgeCost(es: seq<Edge>, key: string): real
    requires |es| > 0
  {
    KeyWeight(SelectEdge(es, key), key).GetOr(0.0)
  }

  lemma {:induction false} SelectFromAgreesWithMinKey(es: seq<Edge>, key: string, best: Edge)
    ensures SelectFrom(es, key, best) in es || SelectFrom(es, key, best) == best
    ensures KeyWeight(SelectFrom(es, key, best), key) == MinKeyFrom(es, key, KeyWeight(best, key))
    decreases |es|
  {
    if es != [] {
      var next := if Below(KeyWeight(es[0], key), KeyWeight(best, key)) then es[0] else best;
      SelectFromAgreesWithMinKey(es[1..], key, next);
      var r := SelectFrom(es[1..], key, next);
      assert r in es[1..] ==> r in es;
    }
  }

  /** The edge picked by `min` is one of the parallel edges and carries exactly the minimum weight. */
  lemma {:induction false} SelectEdgeIsMinimal(es: seq<Edge>, key: string)
    requires |es| > 0
    ensures SelectEdge(es, key) in es
    ensures KeyWeight(SelectEdge(es, key), key) == MinKey(es, key)
  {
    SelectFromAgreesWithMinKey(es[1..], key, es[0]);
    assert MinKeyFrom(es, key, None) == MinKeyFrom(es[1..], key, KeyWeight(es[0], key));
  }

  /** The Python searches pay the minimum weight when some parallel edge has the key, and 0 when none has. */
  lemma {:induction false} EdgeCostIsMinOrZero(es: seq<Edge>, key: string)
    requires |es| > 0
    ensures MinKey(es, key).Some? ==> EdgeCost(es, key) == MinKey(es, key).value
    ensures MinKey(es, key).None? ==> EdgeCost(es, key) == 0.0
  {
    SelectEdgeIsMinimal(es, key);
  }

  // ---------------------------------------------------------------------------------------
  // Paths and distances over the original graph

  /** Every consecutive pair of `p` is joined by at least one edge. */
  predicate IsGraphPath(g: Graph, p: seq<NodeId>, s: NodeId, t: NodeId) {
    && |p| >= 1 && p[0] == s && p[|p| - 1] == t
    && forall i :: 0 <= i < |p| - 1 ==> EdgesBetween(g, p[i], p[i + 1]).Some?
  }

  /** The reported distance: the sum over consecutive pairs of the min-key parallel edge's key (missing = 0).
      None models the exception the source raises when a pair has no edge data. */
  function PathDistance(g: Graph, p: seq<NodeId>, key: string): (r: Option<real>)
  {
    if |p| < 2 then Some(0.0)
    else
      var link := EdgesBetween(g, p[0], p[1]);
      var rest := PathDistance(g, p[1..], key);
      if link.None? || link.value == [] || rest.None? then None
      else Some(EdgeCost(link.value, key) + rest.value)
  }

  /** A path has a distance exactly when every consecutive pair has non-empty edge data. */
  lemma {:induction false} PathDistanceDefined(g: Graph, p: seq<NodeId>, key: string)
    ensures PathDistance(g, p, key).Some? <==> forall i :: 0 <= i < |p| - 1 ==>
              EdgesBetween(g, p[i], p[i + 1]).Some? && |EdgesBetween(g, p[i], p[i + 1]).value| > 0
    decreases |p|
  {
    if |p| >= 2 {
      var q := p[1..];
      PathDistanceDefined(g, q, key);
      assert forall i :: 0 <= i < |q| ==> q[i] == p[i + 1];
    }
  }

  /** On a well-formed graph, the edge data between two joined nodes is non-empty with non-negative attributes. */
  lemma {:induction false} EdgeDataNonNegative(g: Graph, u: NodeId, v: NodeId)
    requires WellFormed(g)
    requires EdgesBetween(g, u, v).Some?
    ensures |EdgesBetween(g, u, v).value| > 0
    ensures forall k, a :: 0 <= k < |EdgesBetween(g, u, v).value| && a in EdgesBetween(g, u, v).value[k].attrs ==>
              EdgesBetween(g, u, v).value[k].attrs[a] >= 0.0
  {
    var links := g.adj[u];
    assert WellFormedLinks(g, links);
    var i :| 0 <= i < |links| && links[i].to == v && links[i].edges == EdgesBetween(g, u, v).value;
  }

  /** The cost the Python searches pay for a connection is non-negative on a well-formed graph. */
  lemma {:induction false} EdgeCostNonNegative(g: Graph, u: NodeId, v: NodeId, key: string)
    requires WellFormed(g)
    requires EdgesBetween(g, u, v).Some?
    ensures |EdgesBetween(g, u, v).value| > 0
    ensures EdgeCost(EdgesBetween(g, u, v).value, key) >= 0.0
  {
    var es := EdgesBetween(g, u, v).value;
    EdgeDataNonNegative(g, u, v);
    SelectEdgeIsMinimal(es, key);
    var e := SelectEdge(es, key);
    var k :| 0 <= k < |es| && es[k] == e;
  }

  /** On a well-formed graph, every graph path has a distance, and it is non-negative. */
  lemma {:induction false} PathDistanceOfGraphPath(g: Graph, p: seq<NodeId>, key: string)
    requires WellFormed(g)
    requires |p| >= 1 && forall i :: 0 <= i < |p| - 1 ==> EdgesBetween(g, p[i], p[i + 1]).Some?
    ensures PathDistance(g, p, key).Some?
    ensures PathDistance(g, p, key).value >= 0.0
  {
    if |p| >= 2 {
      EdgeCostNonNegative(g, p[0], p[1], key);
      var q := p[1..];
      forall i | 0 <= i < |q| - 1
        ensures EdgesBetween(g, q[i], q[i + 1]).Some?
      {
        assert q[i] == p[i + 1] && q[i + 1] == p[i + 2];
      }
      PathDistanceOfGraphPath(g, q, key);
      PathDistanceStep(g, p, key);
    }
  }

  /** The distance of a path of two or more nodes is its first connection's cost plus the rest's distance. */
  lemma {:induction false} PathDistanceStep(g: Graph, p: seq<NodeId>, key: string)
    requires |p| >= 2 && EdgesBetween(g, p[0], p[1]).Some? && |EdgesBetween(g, p[0], p[1]).value| > 0
    requires PathDistance(g, p[1..], key).Some?
    ensures PathDistance(g, p, key).Some?
    ensures PathDistance(g, p, key).value ==
              EdgeCost(EdgesBetween(g, p[0], p[1]).value, key) + PathDistance(g, p[1..], key).value
  {
    var link, rest := EdgesBetween(g, p[0], p[1]), PathDistance(g, p[1..], key);
    assert !(link.None? || link.value == [] || rest.None?);
  }

  /** Distances add up along joined paths: following `p` and then `q` from where `p` ends has a distance exactly
      when both parts have one, and it is their sum. */
  lemma {:induction false} PathDistanceJoin(g: Graph, p: seq<NodeId>, q: seq<NodeId>, key: string)
    requires |p| >= 1 && |q| >= 1 && p[|p| - 1] == q[0]
    ensures PathDistance(g, p + q[1..], key).Some? <==> PathDistance(g, p, key).Some? && PathDistance(g, q, key).Some?
    ensures PathDistance(g, p + q[1..], key).Some? ==>
              PathDistance(g, p + q[1..], key).value == PathDistance(g, p, key).value + PathDistance(g, q, key).value
    decreases |p|
  {
    var r := p + q[1..];
    if |p| == 1 {
      assert r == q;
    } else {
      PathDistanceJoin(g, p[1..], q, key);
      assert r[0] == p[0] && r[1] == p[1];
      assert r[1..] == p[1..] + q[1..];
      var link := EdgesBetween(g, p[0], p[1]);
      if link.Some? && link.value != [] && PathDistance(g, r[1..], key).Some? {
        var c, a, b := EdgeCost(link.value, key), PathDistance(g, p[1..], key).value, PathDistance(g, q, key).value;
        assert PathDistance(g, r, key).value == c + (a + b);
        assert PathDistance(g, p, key).value == c + a;
      }
    }
  }
}
