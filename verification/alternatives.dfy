/**
 * Alternative routes by the penalty method: after each found route the weights of its connections are raised
 * by half in a working copy of the cached arrays, and the accelerated search runs again.
 */
module Alternatives {
  import opened Wrappers
  import opened Text
  import opened RoadGraph
  import opened Csr
  import opened CppSearch
  import opened GraphCache
  import opened Routing

  // ---------------------------------------------------------------------------------------
  // Penalties

  /** `penalty_factor` */
  const Penalty: real := 1.5

  /** The first slot of row `u`, from slot `s` on, whose column is `v`. */
  function FirstFrom(c: Csr, u: nat, v: nat, s: nat): (r: Option<nat>)
    requires ValidCsr(c) && u < c.n && c.rowPtr[u] <= s
    ensures r.Some? ==> s <= r.value < c.rowPtr[u + 1] && c.cols[r.value] == v
    ensures r.Some? ==> forall x :: s <= x < r.value ==> c.cols[x] != v
    ensures r.None? ==> forall x :: s <= x < c.rowPtr[u + 1] ==> c.cols[x] != v
    decreases c.rowPtr[u + 1] - s
  {
    if s >= c.rowPtr[u + 1] then None
    else if c.cols[s] == v then Some(s)
    else FirstFrom(c, u, v, s + 1)
  }

  /** The slot the inner loop of the penalty pass stops at: the first slot of row `u` whose column is `v`. */
  function FirstSlot(c: Csr, u: nat, v: nat): (r: Option<nat>)
    requires ValidCsr(c) && u < c.n
    ensures r.Some? ==> r.value < |c.cols|
  {
    assert c.rowPtr[u + 1] <= c.rowPtr[c.n];
    FirstFrom(c, u, v, c.rowPtr[u])
  }

  /** The arrays and table of an entry agree on the number of nodes. */
  predicate Indexed(e: Compact) {
    ValidCsr(e.csr) && forall id :: id in e.nodeToIdx ==> e.nodeToIdx[id] < e.csr.n
  }

  /** The slot the penalty pass raises for the `j`-th consecutive pair of `p`; none when a node of the pair is
      unknown to the table (`continue`) or the row has no slot for it. */
  function PenaltySlot(e: Compact, p: seq<NodeId>, j: nat): (r: Option<nat>)
    requires Indexed(e) && j + 1 < |p|
    ensures r.Some? ==> r.value < |e.csr.cols|
  {
    var a, b := p[j], p[j + 1];
    if a in e.nodeToIdx && b in e.nodeToIdx then
      var u := e.nodeToIdx[a];
      assert u < e.csr.n;
      FirstSlot(e.csr, u, e.nodeToIdx[b])
    else None
  }

  /** `current_weights[w_idx] *= penalty_factor` */
  function Bump(w: seq<real>, o: Option<nat>): seq<real>
    requires o.Some? ==> o.value < |w|
  {
    if o.Some? then w[o.value := w[o.value] * Penalty] else w
  }

  /** The penalty pass over the pairs of `p` from the `j`-th on. */
  function PassFrom(e: Compact, w: seq<real>, p: seq<NodeId>, j: nat): (r: seq<real>)
    requires Indexed(e) && |w| == |e.csr.cols|
    ensures |r| == |w|
    decreases |p| - j
  {
    if j + 1 >= |p| then w
    else
      var o := PenaltySlot(e, p, j);
      PassFrom(e, Bump(w, o), p, j + 1)
  }

  /** One penalty pass for the latest route `p`. */
  function Pass(e: Compact, w: seq<real>, p: seq<NodeId>): (r: seq<real>)
    requires Indexed(e) && |w| == |e.csr.cols|
  {
    PassFrom(e, w, p, 0)
  }

  /** `x` to the power `n`. */
  function Pow(x: real, n: nat): real {
    if n == 0 then 1.0 else x * Pow(x, n - 1)
  }

  /** How many pairs of `p`, from the `j`-th on, raise slot `s`. */
  function HitsFrom(e: Compact, p: seq<NodeId>, s: nat, j: nat): nat
    requires Indexed(e)
    decreases |p| - j
  {
    if j + 1 >= |p| then 0
    else (if PenaltySlot(e, p, j) == Some(s) then 1 else 0) + HitsFrom(e, p, s, j + 1)
  }

  function Hits(e: Compact, p: seq<NodeId>, s: nat): nat
    requires Indexed(e)
  {
    HitsFrom(e, p, s, 0)
  }

  lemma {:induction false} PowStep(x: real, n: nat)
    ensures Pow(x, n + 1) == x * Pow(x, n)
  {
  }

  lemma {:induction false} PowAdd(x: real, a: nat, b: nat)
    ensures Pow(x, a + b) == Pow(x, a) * Pow(x, b)
    decreases a
  {
    if a > 0 {
      PowAdd(x, a - 1, b);
      assert Pow(x, a + b) == x * Pow(x, a - 1 + b);
      assert x * (Pow(x, a - 1) * Pow(x, b)) == (x * Pow(x, a - 1)) * Pow(x, b);
    }
  }

  lemma {:induction false} PowAtLeastOne(n: nat)
    ensures Pow(Penalty, n) >= 1.0
    decreases n
  {
    if n > 0 {
      PowAtLeastOne(n - 1);
    }
  }

  /** A pass multiplies each slot's weight by 1.5 once for every pair of the route that raises it, and leaves the
      other slots alone. */
  lemma {:induction false} PassFromScales(e: Compact, w: seq<real>, p: seq<NodeId>, j: nat, s: nat)
    requires Indexed(e) && |w| == |e.csr.cols| && s < |w|
    ensures PassFrom(e, w, p, j)[s] == w[s] * Pow(Penalty, HitsFrom(e, p, s, j))
    decreases |p| - j
  {
    if j + 1 < |p| {
      var o := PenaltySlot(e, p, j);
      var w' := Bump(w, o);
      PassFromScales(e, w', p, j + 1, s);
      var n := HitsFrom(e, p, s, j + 1);
      if o == Some(s) {
        PowStep(Penalty, n);
        assert w'[s] == w[s] * Penalty;
        assert w[s] * Penalty * Pow(Penalty, n) == w[s] * (Penalty * Pow(Penalty, n));
        assert HitsFrom(e, p, s, j) == n + 1;
      } else {
        assert w'[s] == w[s];
      }
    }
  }

  lemma {:induction false} PassScales(e: Compact, w: seq<real>, p: seq<NodeId>, s: nat)
    requires Indexed(e) && |w| == |e.csr.cols| && s < |w|
    ensures Pass(e, w, p)[s] == w[s] * Pow(Penalty, Hits(e, p, s))
  {
    PassFromScales(e, w, p, 0, s);
  }

  /** Penalties compound: two passes multiply a slot's weight by 1.5 once per raising pair of either route. */
  lemma {:induction false} PenaltiesCompound(e: Compact, w: seq<real>, p1: seq<NodeId>, p2: seq<NodeId>, s: nat)
    requires Indexed(e) && |w| == |e.csr.cols| && s < |w|
    ensures Pass(e, Pass(e, w, p1), p2)[s] == w[s] * Pow(Penalty, Hits(e, p1, s) + Hits(e, p2, s))
  {
    PassScales(e, w, p1, s);
    PassScales(e, Pass(e, w, p1), p2, s);
    PowAdd(Penalty, Hits(e, p1, s), Hits(e, p2, s));
    var a, b := Pow(Penalty, Hits(e, p1, s)), Pow(Penalty, Hits(e, p2, s));
    assert w[s] * a * b == w[s] * (a * b);
  }

  /** A pass only raises weights, so non-negative weights stay non-negative. */
  lemma {:induction false} PassKeepsNonNegative(e: Compact, w: seq<real>, p: seq<NodeId>)
    requires Indexed(e) && |w| == |e.csr.cols|
    requires forall s :: 0 <= s < |w| ==> w[s] >= 0.0
    ensures forall s :: 0 <= s < |w| ==> w[s] <= Pass(e, w, p)[s]
  {
    forall s | 0 <= s < |w| ensures w[s] <= Pass(e, w, p)[s] {
      PassScales(e, w, p, s);
      var f := Pow(Penalty, Hits(e, p, s));
      PowAtLeastOne(Hits(e, p, s));
      assert w[s] * f - w[s] == w[s] * (f - 1.0);
    }
  }

  /** The slot a pair raises joins the pair's nodes, and it is the first slot of its row that does. */
  lemma {:induction false} PenaltySlotJoins(e: Compact, p: seq<NodeId>, j: nat)
    requires Indexed(e) && j + 1 < |p| && PenaltySlot(e, p, j).Some?
    ensures p[j] in e.nodeToIdx && p[j + 1] in e.nodeToIdx && e.nodeToIdx[p[j]] < e.csr.n
    ensures var u, v, s := e.nodeToIdx[p[j]], e.nodeToIdx[p[j + 1]], PenaltySlot(e, p, j).value;
      && e.csr.rowPtr[u] <= s < e.csr.rowPtr[u + 1] && e.csr.cols[s] == v
      && forall x :: e.csr.rowPtr[u] <= x < s ==> e.csr.cols[x] != v
  {
    var a := p[j];
    assert a in e.nodeToIdx && e.nodeToIdx[a] < e.csr.n;
  }

  // ---------------------------------------------------------------------------------------
  // The alternatives

  /** One entry of the result: `{"path": ..., "distance": ..., "type": ...}` */
  datatype Route = Route(path: seq<NodeId>, distance: Dist, kind: string)

  /** The label of the primary route. */
  function PrimaryLabel(key: string): string {
    if key == "weight_time" then "Fastest" else "Shortest"
  }

  /** The label of the `i`-th alternative. */
  function AltLabel(i: nat): string {
    "Alternative " + NatToString(i)
  }

  /** Route `i` of the list is a well-labelled alternative: a path of the graph from start to goal that differs
      from the route before it, with its unpenalised distance over the graph. */
  predicate AltOk(g: Graph, key: string, start: NodeId, goal: NodeId, routes: seq<Route>, i: nat)
    requires 1 <= i < |routes|
  {
    && routes[i].kind == AltLabel(i)
    && routes[i].path != routes[i - 1].path
    && IsGraphPath(g, routes[i].path, start, goal)
    && routes[i].distance.Fin? && PathDistance(g, routes[i].path, key) == Some(routes[i].distance.val)
  }

  predicate AltsOk(g: Graph, key: string, start: NodeId, goal: NodeId, routes: seq<Route>) {
    forall i :: 1 <= i < |routes| ==> AltOk(g, key, start, goal, routes, i)
  }

  /** What the outcome of `get_k_shortest_paths` is made of: the routes, or None when the primary search
      raised. */
  datatype Outcome = Outcome(routes: Option<seq<Route>>, primary: Reply, cache: Cache)

  /** What one penalised search returned: the index path, and whether the search ran out of fuel. */
  datatype Attempt = Attempt(ix: seq<nat>, exhausted: bool)

  /** The search result `ix` ends the loop after route `last`: an empty result (`if not path_indices: break`), an
      index the table cannot translate (the KeyError the surrounding `try` catches), the same path as `last`
      (convergence), or a path over a pair with no connection (the exception of the distance sum). */
  predicate Ends(g: Graph, key: string, e: Compact, last: seq<NodeId>, ix: seq<nat>) {
    || ix == []
    || ToIds(e.idxToNode, ix).None?
    || ToIds(e.idxToNode, ix).value == last
    || PathDistance(g, ToIds(e.idxToNode, ix).value, key).None?
  }

  /** What the search result says about the arrays: a non-empty result is a walk from the start's index to the
      goal's, and an empty one that did not run out of fuel means the arrays have no such walk at all. */
  ghost predicate Explained(e: Compact, start: NodeId, goal: NodeId, sr: Attempt)
    requires start in e.nodeToIdx && goal in e.nodeToIdx
  {
    var s, t := e.nodeToIdx[start], e.nodeToIdx[goal];
    && (sr.exhausted ==> sr.ix == [])
    && (sr.ix != [] ==> exists slots :: WalkFromTo(e.csr, sr.ix, slots, s, t))
    && (sr.ix == [] && !sr.exhausted ==> !Reachable(e.csr, s, t))
  }

  /** Raising weights changes no walk: the same nodes and slots form a walk under any weights of the same length. */
  lemma {:induction false} ReweightKeepsWalks(c: Csr, w: seq<real>, s: nat, t: nat)
    requires |w| == |c.weights|
    ensures forall nodes, slots :: WalkFromTo(c, nodes, slots, s, t) <==> WalkFromTo(Csr(c.n, c.rowPtr, c.cols, w), nodes, slots, s, t)
    ensures Reachable(c, s, t) <==> Reachable(Csr(c.n, c.rowPtr, c.cols, w), s, t)
  {
    var c' := Csr(c.n, c.rowPtr, c.cols, w);
    forall nodes, slots ensures WalkFromTo(c, nodes, slots, s, t) <==> WalkFromTo(c', nodes, slots, s, t) {
      assert forall u, x :: InRow(c, u, x) <==> InRow(c', u, x);
    }
    if Reachable(c, s, t) {
      var nodes, slots :| WalkFromTo(c, nodes, slots, s, t);
      assert WalkFromTo(c', nodes, slots, s, t);
    }
    if Reachable(c', s, t) {
      var nodes, slots :| WalkFromTo(c', nodes, slots, s, t);
      assert WalkFromTo(c, nodes, slots, s, t);
    }
  }

  /** One round of the penalty loop after the route `last`: raise the weights of its connections, search the
      penalised copy again, and keep the new path exactly when the search result does not end the loop. */
  method NextRoute(g: Graph, key: string, e: Compact, start: NodeId, goal: NodeId, h: nat -> real,
                   w: seq<real>, last: seq<NodeId>, i: nat, fuel: nat)
    returns (w': seq<real>, sr: Attempt, next: Option<Route>)
    requires EntryOk(e) && start in e.nodeToIdx && goal in e.nodeToIdx
    requires |w| == |e.csr.cols| && forall x :: 0 <= x < |w| ==> w[x] >= 0.0
    ensures w' == Pass(e, w, last)
    ensures |w'| == |w| && forall x :: 0 <= x < |w| ==> w[x] <= w'[x]
    ensures Explained(e, start, goal, sr)
    ensures sr.ix != [] && Consistent(Csr(e.csr.n, e.csr.rowPtr, e.csr.cols, w'), h) ==>
      ShortestWalk(Csr(e.csr.n, e.csr.rowPtr, e.csr.cols, w'), sr.ix, e.nodeToIdx[start], e.nodeToIdx[goal])
    ensures next.None? <==> Ends(g, key, e, last, sr.ix)
    ensures next.Some? ==>
      && ToIds(e.idxToNode, sr.ix) == Some(next.value.path)
      && next.value.kind == AltLabel(i)
      && next.value.path != last
      && IsGraphPath(g, next.value.path, start, goal)
      && next.value.distance.Fin? && PathDistance(g, next.value.path, key) == Some(next.value.distance.val)
  {
    PassKeepsNonNegative(e, w, last);
    w' := Pass(e, w, last);
    var s, t := e.nodeToIdx[start], e.nodeToIdx[goal];
    var c := Csr(e.csr.n, e.csr.rowPtr, e.csr.cols, w');
    var ix, exhausted := AStarCpp(c, h, s, t, fuel);
    sr := Attempt(ix, exhausted);
    ReweightKeepsWalks(e.csr, w', s, t);
    if ix == [] {
      return w', sr, None;
    }
    ghost var slots :| WalkFromTo(c, ix, slots, s, t);
    assert WalkFromTo(e.csr, ix, slots, s, t);
    var ids := ToIds(e.idxToNode, ix);
    if ids.None? || ids.value == last {
      return w', sr, None;
    }
    var d := PathDistance(g, ids.value, key);
    if d.None? {
      return w', sr, None;
    }
    TranslatedEnds(e, ix, start, goal);
    PathDistanceDefined(g, ids.value, key);
    next := Some(Route(ids.value, Fin(d.value), AltLabel(i)));
  }

  /** An index path from the start's index to the goal's translates back to a path from `start` to `goal`. */
  lemma {:induction false} TranslatedEnds(e: Compact, ix: seq<nat>, start: NodeId, goal: NodeId)
    requires EntryOk(e) && start in e.nodeToIdx && goal in e.nodeToIdx
    requires ix != [] && ix[0] == e.nodeToIdx[start] && ix[|ix| - 1] == e.nodeToIdx[goal]
    requires ToIds(e.idxToNode, ix).Some?
    ensures var p := ToIds(e.idxToNode, ix).value; |p| >= 1 && p[0] == start && p[|p| - 1] == goal
  {
  }

  /** Appending a well-labelled alternative keeps the list well-labelled. */
  lemma {:induction false} AppendAlternative(g: Graph, key: string, start: NodeId, goal: NodeId, routes: seq<Route>,
                                             next: Route)
    requires AltsOk(g, key, start, goal, routes) && |routes| >= 1
    requires next.kind == AltLabel(|routes|) && next.path != routes[|routes| - 1].path
    requires IsGraphPath(g, next.path, start, goal)
    requires next.distance.Fin? && PathDistance(g, next.path, key) == Some(next.distance.val)
    ensures AltsOk(g, key, start, goal, routes + [next])
  {
    var rs := routes + [next];
    forall i | 1 <= i < |rs| ensures AltOk(g, key, start, goal, rs, i) {
      if i < |routes| {
        assert rs[i] == routes[i] && rs[i - 1] == routes[i - 1];
        assert AltOk(g, key, start, goal, routes, i);
      }
    }
  }

  /** Weights that only grow keep a heuristic consistent: it still never drops by more than a slot's weight. */
  lemma {:induction false} GrowingKeepsConsistent(c: Csr, w: seq<real>, h: nat -> real)
    requires |w| == |c.weights| && forall x :: 0 <= x < |w| ==> c.weights[x] <= w[x]
    requires Consistent(c, h)
    ensures Consistent(Csr(c.n, c.rowPtr, c.cols, w), h)
  {
    var c' := Csr(c.n, c.rowPtr, c.cols, w);
    forall u: nat, x: nat | InRow(c', u, x) ensures h(u) <= c'.weights[x] + h(c'.cols[x]) {
      assert InRow(c, u, x);
    }
  }

  /** The working copy after the penalty passes for the routes `rs`, in order, starting from `w`. */
  function Passes(e: Compact, w: seq<real>, rs: seq<Route>): (r: seq<real>)
    requires Indexed(e) && |w| == |e.csr.cols|
    ensures |r| == |w|
    decreases |rs|
  {
    if rs == [] then w else Pass(e, Passes(e, w, rs[..|rs| - 1]), rs[|rs| - 1].path)
  }

  /** How many pairs of the routes `rs`, all together, raise slot `s`. */
  function TotalHits(e: Compact, rs: seq<Route>, s: nat): nat
    requires Indexed(e)
    decreases |rs|
  {
    if rs == [] then 0 else TotalHits(e, rs[..|rs| - 1], s) + Hits(e, rs[|rs| - 1].path, s)
  }

  /** Penalties compound across the rounds: after the passes for `rs`, each slot's weight is its starting weight
      times 1.5 once for every pair of every route that raised it. */
  lemma {:induction false} PassesScale(e: Compact, w: seq<real>, rs: seq<Route>, s: nat)
    requires Indexed(e) && |w| == |e.csr.cols| && s < |w|
    ensures Passes(e, w, rs)[s] == w[s] * Pow(Penalty, TotalHits(e, rs, s))
    decreases |rs|
  {
    if rs != [] {
      var front := rs[..|rs| - 1];
      var w0 := Passes(e, w, front);
      PassesScale(e, w, front, s);
      PassScales(e, w0, rs[|rs| - 1].path, s);
      var a, b := TotalHits(e, front, s), Hits(e, rs[|rs| - 1].path, s);
      PowAdd(Penalty, a, b);
      var pa, pb := Pow(Penalty, a), Pow(Penalty, b);
      assert Passes(e, w, rs)[s] == w0[s] * pb;
      assert w[s] * pa * pb == w[s] * (pa * pb);
    }
  }

  /** `max(k, 1)`: the most routes the result can hold. */
  function MostRoutes(k: int): nat {
    if k > 1 then k else 1
  }

  /** How the penalty loop ended for `routes`: short of `k` routes exactly when a round's search result `ended`
      stopped it, and then that result ends the loop after the last route kept. */
  ghost predicate Stopped(g: Graph, key: string, e: Compact, start: NodeId, goal: NodeId, routes: seq<Route>, k: int,
                          ended: Option<Attempt>)
    requires |routes| >= 1 && start in e.nodeToIdx && goal in e.nodeToIdx
  {
    && (ended.Some? <==> |routes| < MostRoutes(k))
    && (ended.Some? ==> Ends(g, key, e, routes[|routes| - 1].path, ended.value.ix) && Explained(e, start, goal, ended.value))
  }

  /** The penalty loop `for i in range(k - 1)` after the primary route; the routes already collected are kept
      whichever way a round ends it. */
  method PenaltyLoop(g: Graph, key: string, e: Compact, start: NodeId, goal: NodeId, h: nat -> real,
                     first: Route, k: int, fuel: nat)
    returns (routes: seq<Route>, ended: Option<Attempt>, w: seq<real>)
    requires EntryOk(e) && start in e.nodeToIdx && goal in e.nodeToIdx
    ensures 1 <= |routes| <= MostRoutes(k)
    ensures routes[0] == first
    ensures AltsOk(g, key, start, goal, routes)
    ensures Stopped(g, key, e, start, goal, routes, k, ended)
    ensures |w| == |e.csr.cols| && forall x :: 0 <= x < |w| ==> e.csr.weights[x] <= w[x]
    ensures w == Passes(e, e.csr.weights, if ended.Some? then routes else routes[..|routes| - 1])
    ensures ended.Some? && ended.value.ix != [] && Consistent(e.csr, h) ==>
      ShortestWalk(Csr(e.csr.n, e.csr.rowPtr, e.csr.cols, w), ended.value.ix, e.nodeToIdx[start], e.nodeToIdx[goal])
  {
    routes, ended := [first], None;
    w := e.csr.weights;
    var i := 0;
    assert routes[..0] == [];
    while i < k - 1
      invariant 0 <= i && (k > 1 ==> i <= k - 1) && (k <= 1 ==> i == 0)
      invariant |routes| == i + 1 && routes[0] == first
      invariant AltsOk(g, key, start, goal, routes)
      invariant |w| == |e.csr.cols| && forall x :: 0 <= x < |w| ==> e.csr.weights[x] <= w[x]
      invariant w == Passes(e, e.csr.weights, routes[..|routes| - 1])
      invariant ended.None?
    {
      var sr, next;
      w, sr, next := NextRoute(g, key, e, start, goal, h, w, routes[|routes| - 1].path, i + 1, fuel);
      assert routes == routes[..|routes| - 1] + [routes[|routes| - 1]];
      assert w == Passes(e, e.csr.weights, routes);
      if next.None? {
        ended := Some(sr);
        if sr.ix != [] && Consistent(e.csr, h) {
          GrowingKeepsConsistent(e.csr, w, h);
        }
        return;
      }
      AppendAlternative(g, key, start, goal, routes, next.value);
      ghost var before := routes;
      routes := routes + [next.value];
      assert routes[..|routes| - 1] == before;
      i := i + 1;
    }
  }

  /** How the routes after the primary one came about: when the arrays know both ends the penalty loop ran and
      `Stopped` says how it ended; otherwise the `node_to_idx` lookup raised inside the `try` and only the primary
      route is returned. */
  ghost predicate LoopEnded(g: Graph, key: string, e: Compact, start: NodeId, goal: NodeId, routes: seq<Route>, k: int,
                            ended: Option<Attempt>)
    requires |routes| >= 1
  {
    if start in e.nodeToIdx && goal in e.nodeToIdx then Stopped(g, key, e, start, goal, routes, k, ended)
    else |routes| == 1 && ended.None?
  }

  /** `get_k_shortest_paths(graph, start, goal, heuristic, weight, k)`; the inputs are those of `astar_path`. */
  method KShortest(cppAvailable: bool, cache: Cache, gid: nat, g: Graph, start: NodeId, goal: NodeId,
                   h: nat -> real, key: string, nx: NxAnswer, k: int, fuel: nat)
    returns (out: Outcome, ended: Option<Attempt>)
    requires WellFormed(g) && CacheOk(cache) && NxFaithful(g, start, goal, nx)
    ensures Reported(g, key, start, goal, out.primary)
    ensures out.routes.None? <==> out.primary.Raised?
    ensures out.routes == Some([]) <==> out.primary == NoRoute
    ensures out.routes.Some? && out.routes.value != [] ==>
      && out.primary.Reply? && out.primary.path.Some?
      && out.routes.value[0] == Route(out.primary.path.value, out.primary.distance, PrimaryLabel(key))
    ensures out.routes.Some? ==> |out.routes.value| <= MostRoutes(k)
    ensures out.routes.Some? && !cppAvailable ==> |out.routes.value| <= 1 && ended.None?
    ensures out.routes.Some? ==> AltsOk(g, key, start, goal, out.routes.value)
    ensures out.routes.None? ==> ended.None?
    ensures cppAvailable && out.routes.Some? && out.routes.value != [] ==>
      Convertible(g) && LoopEnded(g, key, Lookup(cache, gid, g, key).1, start, goal, out.routes.value, k, ended)
    ensures !cppAvailable ==> out.cache == cache
    ensures cppAvailable ==> Convertible(g) && out.cache == Lookup(cache, gid, g, key).0
  {
    ended := None;
    var primary, cache', _ := AStarPath(cppAvailable, cache, gid, g, start, goal, h, key, nx, fuel);
    if primary.Raised? {
      return Outcome(None, primary, cache'), None;
    }
    if primary.path.None? {
      return Outcome(Some([]), primary, cache'), None;
    }
    var first := Route(primary.path.value, primary.distance, PrimaryLabel(key));
    if !cppAvailable {
      return Outcome(Some([first]), primary, cache'), None;
    }
    WellFormedIsConvertible(g);
    var e;
    cache', e := Lookup(cache', gid, g, key).0, Lookup(cache', gid, g, key).1;
    assert e == Lookup(cache, gid, g, key).1;
    if start !in e.nodeToIdx || goal !in e.nodeToIdx {
      return Outcome(Some([first]), primary, cache'), None;
    }
    var routes, w;
    routes, ended, w := PenaltyLoop(g, key, e, start, goal, h, first, k, fuel);
    return Outcome(Some(routes), primary, cache'), ended;
  }
}
