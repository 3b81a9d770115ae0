/**
 * The traffic rule that re-weights every edge of the road graph with a travel time:
 * a base time, a factor for the road surface and a congestion factor drawn from a
 * range chosen by the traffic intensity.
 */
module Traffic {
  import opened Wrappers
  import opened Text
  import opened RoadGraph

  /** The congestion range `(low, high)` for a traffic intensity. */
  datatype Range = Range(lo: real, hi: real)

  function IntensityRange(intensity: string): (r: Range)
    ensures 1.0 <= r.lo < r.hi
  {
    if intensity == "low" then Range(1.0, 1.2)
    else if intensity == "high" then Range(1.5, 3.0)
    else Range(1.1, 1.5)
  }

  /** Each named intensity selects its own range, and every other string selects the medium one. */
  lemma {:induction false} IntensityRangeChoice(intensity: string)
    ensures IntensityRange(intensity) == Range(1.0, 1.2) <==> intensity == "low"
    ensures IntensityRange(intensity) == Range(1.5, 3.0) <==> intensity == "high"
    ensures IntensityRange(intensity) == Range(1.1, 1.5) <==> intensity != "low" && intensity != "high"
  {
  }

  /** `random.uniform(lo, hi)`, which computes `lo + (hi - lo) * random.random()`; the random draw is `u`. */
  function Uniform(r: Range, u: real): real {
    r.lo + (r.hi - r.lo) * u
  }

  /** A draw in [0, 1] gives a factor inside the range. */
  lemma {:induction false} UniformInRange(r: Range, u: real)
    requires 0.0 <= u <= 1.0 && r.lo <= r.hi
    ensures r.lo <= Uniform(r, u) <= r.hi
  {
    var d := r.hi - r.lo;
    assert d * u + d * (1.0 - u) == d;
    assert d * u >= 0.0 && d * (1.0 - u) >= 0.0;
  }

  /** The surface penalty table. */
  const SurfacePenalty: map<string, real> :=
    map["paved" := 1.0, "asphalt" := 1.0, "concrete" := 1.0, "unpaved" := 1.5, "gravel" := 1.5,
        "dirt" := 2.0, "grass" := 2.5]

  /** The surface an edge is looked up under: its first value when it holds a list, "paved" when absent. */
  function SurfaceName(t: Tag): string {
    match t
    case Absent => "paved"
    case One(s) => s
    case Many(first, _) => first
  }

  /** `SURFACE_PENALTY.get(str(surface).lower(), 1.2)` */
  function SurfaceFactor(t: Tag): (f: real)
    ensures f >= 1.0
  {
    var name := Lower(SurfaceName(t));
    if name in SurfacePenalty then SurfacePenalty[name] else 1.2
  }

  /** The surface factor is the table entry of the lower-cased surface, 1.2 when the table lacks it, and 1.0 for
      an edge without a surface. */
  lemma {:induction false} SurfaceFactorCases(t: Tag)
    ensures Lower(SurfaceName(t)) in SurfacePenalty ==> SurfaceFactor(t) == SurfacePenalty[Lower(SurfaceName(t))]
    ensures Lower(SurfaceName(t)) !in SurfacePenalty ==> SurfaceFactor(t) == 1.2
    ensures t.Absent? ==> SurfaceFactor(t) == 1.0
    ensures t.Many? ==> SurfaceFactor(t) == SurfaceFactor(One(t.first))
  {
    if t.Absent? {
      assert Lower("paved") == "paved";
    }
  }

  /** The value of an attribute, or a default when the edge lacks it (`data.get(key, default)`). */
  function Attr(attrs: map<string, real>, key: string, default: real): real {
    if key in attrs then attrs[key] else default
  }

  /** The base travel time in seconds: `travel_time` unless missing or zero, else `length / (speed_kph / 3.6)`
      with defaults 1 and 30. None is the ZeroDivisionError of a zero `speed_kph`. */
  function BaseTime(attrs: map<string, real>): (r: Option<real>)
  {
    var travel := Attr(attrs, "travel_time", 0.0);
    if travel != 0.0 then Some(travel)
    else
      var speed := Attr(attrs, "speed_kph", 30.0);
      if speed == 0.0 then None else Some(Attr(attrs, "length", 1.0) / (speed / 3.6))
  }

  /** The base time is the recorded travel time when there is a non-zero one; otherwise it is derived from length
      and speed, and fails exactly for a zero speed. */
  lemma {:induction false} BaseTimeCases(attrs: map<string, real>)
    ensures "travel_time" in attrs && attrs["travel_time"] != 0.0 ==> BaseTime(attrs) == Some(attrs["travel_time"])
    ensures BaseTime(attrs).None? <==>
              ("travel_time" !in attrs || attrs["travel_time"] == 0.0) && "speed_kph" in attrs && attrs["speed_kph"] == 0.0
    ensures ("travel_time" !in attrs || attrs["travel_time"] == 0.0) && "length" !in attrs && "speed_kph" !in attrs ==>
              BaseTime(attrs) == Some(0.12)
  {
  }

  /** With non-negative attributes the base time, when there is one, is non-negative. */
  lemma {:induction false} BaseTimeNonNegative(attrs: map<string, real>)
    requires forall a :: a in attrs ==> attrs[a] >= 0.0
    requires BaseTime(attrs).Some?
    ensures BaseTime(attrs).value >= 0.0
  {
    var travel := Attr(attrs, "travel_time", 0.0);
    if travel == 0.0 {
      var speed := Attr(attrs, "speed_kph", 30.0);
      var len := Attr(attrs, "length", 1.0);
      assert speed > 0.0 && len >= 0.0;
      assert len / (speed / 3.6) == (len * 3.6) / speed;
    }
  }

  /** One edge after the update: both factors stored and `weight_time` set to their product with the base time. */
  function Retimed(e: Edge, base: real, trafficFactor: real): Edge {
    var sf := SurfaceFactor(e.surface);
    e.(attrs := e.attrs["traffic_factor" := trafficFactor]["surface_factor" := sf]
                       ["weight_time" := base * sf * trafficFactor])
  }

  /** The draw of the congestion factor for the edge `(u, v, k)`: `noise(u, v, k)` plays `random.random()`. */
  type Noise = (NodeId, NodeId, nat) -> real

  /** Some edge of the graph has no base time: the loop stops there with a ZeroDivisionError. */
  predicate Fails(g: Graph) {
    exists u, l, k :: u in g.adj && 0 <= l < |g.adj[u]| && 0 <= k < |g.adj[u][l].edges| &&
      BaseTime(g.adj[u][l].edges[k].attrs).None?
  }

  function RetimedLinks(u: NodeId, links: seq<Link>, r: Range, noise: Noise): (res: seq<Link>) {
    seq(|links|, l requires 0 <= l < |links| =>
      Link(links[l].to, seq(|links[l].edges|, k requires 0 <= k < |links[l].edges| =>
        Retimed(links[l].edges[k], BaseTime(links[l].edges[k].attrs).GetOr(0.0),
                Uniform(r, noise(u, links[l].to, k))))))
  }

  /** `TrafficManager.simulate_conditions(graph, traffic_intensity)`: every edge, each parallel edge included, gets
      its factors and `weight_time`; None is the ZeroDivisionError of an edge without a base time. */
  function Simulate(g: Graph, intensity: string, noise: Noise): (r: Option<Graph>)
    ensures r.None? <==> Fails(g)
  {
    if Fails(g) then None
    else Some(Graph(g.nodes, map u | u in g.adj :: RetimedLinks(u, g.adj[u], IntensityRange(intensity), noise)))
  }

  /** The update keeps every node, every connection and the number of parallel edges; each edge keeps its surface,
      name and every attribute but the three it sets (so `length` and `travel_time` are untouched), and gets
      `weight_time` = base time * surface factor * congestion factor with both factors stored. */
  lemma {:induction false} SimulateUpdatesEveryEdge(g: Graph, intensity: string, noise: Noise, u: NodeId, l: nat, k: nat)
    requires Simulate(g, intensity, noise).Some?
    requires u in g.adj && l < |g.adj[u]| && k < |g.adj[u][l].edges|
    ensures var g' := Simulate(g, intensity, noise).value;
      && g'.nodes == g.nodes && g'.adj.Keys == g.adj.Keys
      && |g'.adj[u]| == |g.adj[u]| && g'.adj[u][l].to == g.adj[u][l].to
      && |g'.adj[u][l].edges| == |g.adj[u][l].edges|
      && BaseTime(g.adj[u][l].edges[k].attrs).Some?
      && RetimedAs(g.adj[u][l].edges[k], g'.adj[u][l].edges[k], BaseTime(g.adj[u][l].edges[k].attrs).value,
                   Uniform(IntensityRange(intensity), noise(u, g.adj[u][l].to, k)))
  {
    var e := g.adj[u][l].edges[k];
    assert !Fails(g);
    var g' := Simulate(g, intensity, noise).value;
    var r := IntensityRange(intensity);
    assert g'.adj[u] == RetimedLinks(u, g.adj[u], r, noise);
    RetimedLinksAt(u, g.adj[u], r, noise, l, k);
  }

  /** `e'` is `e` after the update with base time `base` and congestion factor `tf`. */
  predicate RetimedAs(e: Edge, e': Edge, base: real, tf: real) {
    && e'.surface == e.surface && e'.name == e.name
    && e'.attrs.Keys == e.attrs.Keys + {"traffic_factor", "surface_factor", "weight_time"}
    && (forall a :: a in e.attrs && a !in {"traffic_factor", "surface_factor", "weight_time"} ==>
          e'.attrs[a] == e.attrs[a])
    && e'.attrs["traffic_factor"] == tf
    && e'.attrs["surface_factor"] == SurfaceFactor(e.surface)
    && e'.attrs["weight_time"] == base * SurfaceFactor(e.surface) * tf
  }

  lemma {:induction false} RetimedLinksAt(u: NodeId, links: seq<Link>, r: Range, noise: Noise, l: nat, k: nat)
    requires l < |links| && k < |links[l].edges| && BaseTime(links[l].edges[k].attrs).Some?
    ensures var links' := RetimedLinks(u, links, r, noise);
      && |links'| == |links| && links'[l].to == links[l].to && |links'[l].edges| == |links[l].edges|
      && RetimedAs(links[l].edges[k], links'[l].edges[k], BaseTime(links[l].edges[k].attrs).value,
                   Uniform(r, noise(u, links[l].to, k)))
  {
    var e := links[l].edges[k];
    var links' := RetimedLinks(u, links, r, noise);
    assert links'[l].edges[k] == Retimed(e, BaseTime(e.attrs).value, Uniform(r, noise(u, links[l].to, k)));
    RetimedIsRetimedAs(e, BaseTime(e.attrs).value, Uniform(r, noise(u, links[l].to, k)));
  }

  lemma {:induction false} RetimedIsRetimedAs(e: Edge, base: real, tf: real)
    ensures RetimedAs(e, Retimed(e, base, tf), base, tf)
  {
  }

  /** With a draw in [0, 1] the congestion factor lies in the intensity's range, so both factors are at least 1
      and the updated time is never below a non-negative base time. */
  lemma {:induction false} NeverFaster(intensity: string, u: real, surface: Tag, base: real)
    requires 0.0 <= u <= 1.0 && base >= 0.0
    ensures var r := IntensityRange(intensity); r.lo <= Uniform(r, u) <= r.hi
    ensures base * SurfaceFactor(surface) * Uniform(IntensityRange(intensity), u) >= base
  {
    UniformInRange(IntensityRange(intensity), u);
    ScaledUp(base, SurfaceFactor(surface), Uniform(IntensityRange(intensity), u));
  }

  /** Scaling a non-negative amount by two factors of at least 1 does not decrease it. */
  lemma {:induction false} ScaledUp(base: real, a: real, b: real)
    requires base >= 0.0 && a >= 1.0 && b >= 1.0
    ensures base * a * b >= base
  {
    var x, y := a - 1.0, b - 1.0;
    assert x * b >= 0.0 && y >= 0.0;
    assert a * b - 1.0 == x * b + y;
    assert base * a * b - base == base * (a * b - 1.0);
    assert base * (a * b - 1.0) >= 0.0;
  }

  /** An update that succeeds on a graph with non-negative attributes keeps them non-negative, provided the draws
      lie in [0, 1]: the updated graph still satisfies what the searches need. */
  lemma {:induction false} SimulateKeepsWellFormed(g: Graph, intensity: string, noise: Noise)
    requires WellFormed(g) && Simulate(g, intensity, noise).Some?
    requires forall a, b, k :: 0.0 <= noise(a, b, k) <= 1.0
    ensures WellFormed(Simulate(g, intensity, noise).value)
  {
    var g' := Simulate(g, intensity, noise).value;
    forall id | id in g'.adj
      ensures WellFormedLinks(g', g'.adj[id])
    {
      LinksKeepWellFormed(g, intensity, noise, id);
    }
  }

  lemma {:induction false} SimulateAt(g: Graph, intensity: string, noise: Noise, u: NodeId)
    requires Simulate(g, intensity, noise).Some? && u in g.adj
    ensures Simulate(g, intensity, noise).value.nodes == g.nodes
    ensures u in Simulate(g, intensity, noise).value.adj
    ensures Simulate(g, intensity, noise).value.adj[u] == RetimedLinks(u, g.adj[u], IntensityRange(intensity), noise)
  {
  }

  lemma {:induction false} RetimedLinksShape(u: NodeId, links: seq<Link>, r: Range, noise: Noise)
    ensures |RetimedLinks(u, links, r, noise)| == |links|
    ensures Targets(RetimedLinks(u, links, r, noise)) == Targets(links)
    ensures forall l :: 0 <= l < |links| ==> |RetimedLinks(u, links, r, noise)[l].edges| == |links[l].edges|
  {
  }

  lemma {:induction false} LinksKeepWellFormed(g: Graph, intensity: string, noise: Noise, u: NodeId)
    requires WellFormed(g) && Simulate(g, intensity, noise).Some? && u in g.adj
    requires forall a, b, k :: 0.0 <= noise(a, b, k) <= 1.0
    ensures WellFormedLinks(Simulate(g, intensity, noise).value, Simulate(g, intensity, noise).value.adj[u])
  {
    var g' := Simulate(g, intensity, noise).value;
    var r := IntensityRange(intensity);
    var links := g.adj[u];
    SimulateAt(g, intensity, noise, u);
    var links' := g'.adj[u];
    assert WellFormedLinks(g, links);
    RetimedLinksShape(u, links, r, noise);
    assert Ids(g'.nodes) == Ids(g.nodes);
    forall i | 0 <= i < |links'|
      ensures HasNode(g', links'[i].to) && |links'[i].edges| > 0
    {
      assert links'[i].to == Targets(links')[i] == Targets(links)[i] == links[i].to;
    }
    forall i, k | 0 <= i < |links'| && 0 <= k < |links'[i].edges|
      ensures forall a :: a in links'[i].edges[k].attrs ==> links'[i].edges[k].attrs[a] >= 0.0
    {
      EdgeKeepsNonNegative(g, intensity, noise, u, i, k);
    }
  }

  lemma {:induction false} EdgeKeepsNonNegative(g: Graph, intensity: string, noise: Noise, u: NodeId, i: nat, k: nat)
    requires WellFormed(g) && Simulate(g, intensity, noise).Some? && u in g.adj
    requires i < |g.adj[u]| && k < |g.adj[u][i].edges|
    requires forall a, b, k :: 0.0 <= noise(a, b, k) <= 1.0
    ensures u in Simulate(g, intensity, noise).value.adj
    ensures var links' := Simulate(g, intensity, noise).value.adj[u];
      i < |links'| && k < |links'[i].edges| &&
      forall a :: a in links'[i].edges[k].attrs ==> links'[i].edges[k].attrs[a] >= 0.0
  {
    var links := g.adj[u];
    assert WellFormedLinks(g, links);
    var e := links[i].edges[k];
    assert forall a :: a in e.attrs ==> e.attrs[a] >= 0.0;
    SimulateUpdatesEveryEdge(g, intensity, noise, u, i, k);
    BaseTimeNonNegative(e.attrs);
    var r := IntensityRange(intensity);
    UniformInRange(r, noise(u, links[i].to, k));
    var links' := Simulate(g, intensity, noise).value.adj[u];
    RetimedAsNonNegative(e, links'[i].edges[k], BaseTime(e.attrs).value, Uniform(r, noise(u, links[i].to, k)));
  }

  lemma {:induction false} RetimedAsNonNegative(e: Edge, e': Edge, base: real, tf: real)
    requires RetimedAs(e, e', base, tf) && base >= 0.0 && tf >= 1.0
    requires forall a :: a in e.attrs ==> e.attrs[a] >= 0.0
    ensures forall a :: a in e'.attrs ==> e'.attrs[a] >= 0.0
  {
    ScaledUp(base, SurfaceFactor(e.surface), tf);
  }
}
