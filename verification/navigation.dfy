/**
 * Turn-by-turn directions for a route: the classification of a bearing change into a
 * turn, and the instruction list and coordinate list built along a path of the road
 * graph. Bearings and the map projection are parameters.
 */
module Navigation {
  import opened Wrappers
  import opened RoadGraph

  /** Python's `x % 360` on floats: the result takes the sign of the divisor. */
  function Mod360(x: real): (r: real)
    ensures 0.0 <= r < 360.0
  {
    var q := (x / 360.0).Floor;
    assert q as real <= x / 360.0 < q as real + 1.0;
    x - 360.0 * q as real
  }

  /** The bearing change from `b1` to `b2` in degrees: `(bearing2 - bearing1 + 360) % 360`. */
  function TurnDiff(b1: real, b2: real): real {
    Mod360(b2 - b1 + 360.0)
  }

  const TurnRight := "Turn Right"
  const TurnLeft := "Turn Left"
  const Straight := "Continue"
  const UTurn := "Make a U-Turn"

  /** The classification of a bearing change, band by band, with the final fallback of the source. */
  function Classify(diff: real): string {
    if 45.0 <= diff < 135.0 then TurnRight
    else if 225.0 <= diff < 315.0 then TurnLeft
    else if 315.0 <= diff || diff < 45.0 then Straight
    else if 135.0 <= diff < 225.0 then UTurn
    else Straight
  }

  /** `get_turn_instruction(bearing1, bearing2)` */
  function TurnInstruction(b1: real, b2: real): string {
    Classify(TurnDiff(b1, b2))
  }

  /** The four bands cover every change in [0, 360), so the last fallback of the classification is never taken. */
  lemma {:induction false} BandsCover(diff: real)
    requires 0.0 <= diff < 360.0
    ensures || 45.0 <= diff < 135.0 || 225.0 <= diff < 315.0 || 315.0 <= diff || diff < 45.0
            || 135.0 <= diff < 225.0
  {
  }

  /** Each instruction is returned exactly on its band of the bearing change. */
  lemma {:induction false} TurnBands(b1: real, b2: real)
    ensures var d := TurnDiff(b1, b2);
      && (TurnInstruction(b1, b2) == TurnRight <==> 45.0 <= d < 135.0)
      && (TurnInstruction(b1, b2) == TurnLeft <==> 225.0 <= d < 315.0)
      && (TurnInstruction(b1, b2) == Straight <==> 315.0 <= d || d < 45.0)
      && (TurnInstruction(b1, b2) == UTurn <==> 135.0 <= d < 225.0)
  {
    BandsCover(TurnDiff(b1, b2));
  }

  /** Keeping the same bearing is going straight on. */
  lemma {:induction false} SameBearingContinues(b: real)
    ensures TurnDiff(b, b) == 0.0
    ensures TurnInstruction(b, b) == Straight
  {
    assert b - b + 360.0 == 360.0;
    assert (360.0 / 360.0).Floor == 1;
  }

  // ---------------------------------------------------------------------------------------
  // Instructions along a path

  /** `G.nodes[id]`: the node with that id. */
  function NodeOf(ns: seq<Node>, id: NodeId): (r: Option<Node>)
    ensures r.Some? <==> id in Ids(ns)
    ensures r.Some? ==> r.value in ns && r.value.id == id
  {
    if ns == [] then None
    else if ns[0].id == id then Some(ns[0])
    else
      assert Ids(ns) == [ns[0].id] + Ids(ns[1..]);
      NodeOf(ns[1..], id)
  }

  /** What the instructions are computed from: the graph, the path, the weight key, the inverse projection
      `(x, y) -> (lon, lat)` and the bearing function `(lat1, lon1, lat2, lon2) -> degrees`. */
  datatype Env = Env(g: Graph, path: seq<NodeId>, key: string,
                     project: (real, real) -> (real, real), bearing: (real, real, real, real) -> real)

  /** Every node of the path is a node of the graph (`G.nodes[node]` would raise otherwise). */
  predicate OnGraph(env: Env) {
    forall i :: 0 <= i < |env.path| ==> HasNode(env.g, env.path[i])
  }

  /** `(lat, lon)` of the `i`-th node of the path. */
  function LatLon(env: Env, i: nat): (real, real)
    requires OnGraph(env) && i < |env.path|
  {
    var n := NodeOf(env.g.nodes, env.path[i]).value;
    var lonLat := env.project(n.x, n.y);
    (lonLat.1, lonLat.0)
  }

  /** The street name of an edge: its first name when it has several, "unnamed road" when it has none. */
  function StreetName(t: Tag): string {
    match t
    case Absent => "unnamed road"
    case One(s) => s
    case Many(first, _) => first
  }

  /** The edge the instructions describe between the `i`-th and the next node: the one with the least key. None when
      the graph has no edge there (`if edges:` fails). */
  function EdgeAt(env: Env, i: nat): Option<Edge>
    requires i + 1 < |env.path|
  {
    var es := EdgesBetween(env.g, env.path[i], env.path[i + 1]);
    if es.Some? && |es.value| > 0 then Some(SelectEdge(es.value, env.key)) else None
  }

  /** The bearing from the `i`-th to the next node of the path. */
  function BearingAt(env: Env, i: nat): real
    requires OnGraph(env) && i + 1 < |env.path|
  {
    var here, next := LatLon(env, i), LatLon(env, i + 1);
    env.bearing(here.0, here.1, next.0, next.1)
  }

  /** What the loop reads from one step of the path that has edge data: the street name, the length of the edge
      (0 when it has none) and the bearing towards the next node. */
  datatype Leg = Leg(name: string, length: real, bearing: real)

  /** The step from the `i`-th to the next node of the path; None when the graph has no edge there. */
  function LegAt(env: Env, i: nat): Option<Leg>
    requires OnGraph(env) && i + 1 < |env.path|
  {
    match EdgeAt(env, i)
    case None => None
    case Some(e) => Some(Leg(StreetName(e.name), if "length" in e.attrs then e.attrs["length"] else 0.0, BearingAt(env, i)))
  }

  /** The steps of the whole path, one per consecutive pair of nodes. */
  function Legs(env: Env): (r: seq<Option<Leg>>)
    requires OnGraph(env)
    ensures |env.path| > 0 ==> |r| == |env.path| - 1
    ensures |env.path| == 0 ==> r == []
    ensures forall i :: 0 <= i < |r| ==> r[i] == LegAt(env, i)
  {
    seq(if |env.path| > 0 then |env.path| - 1 else 0, i requires OnGraph(env) && 0 <= i && i + 1 < |env.path| => LegAt(env, i))
  }

  /** The `(lat, lon)` of every node of the path, in path order. */
  function Coords(env: Env): (r: seq<(real, real)>)
    requires OnGraph(env)
    ensures |r| == |env.path|
    ensures forall i :: 0 <= i < |r| ==> r[i] == LatLon(env, i)
  {
    seq(|env.path|, i requires OnGraph(env) && 0 <= i < |env.path| => LatLon(env, i))
  }

  /** The loop variables of `generate_instructions` that carry from one step to the next. */
  datatype Walker = Walker(lines: seq<string>, lastBearing: Option<real>, acc: real, street: Option<string>)

  /** One step with edge data: a turn line when the bearing changes enough (which resets the distance on the
      current street), otherwise a change-of-street line once more than 5 metres were covered since the last one. */
  function Advance(w: Walker, leg: Leg): Walker {
    var acc := w.acc + leg.length;
    var turn := if w.lastBearing.Some? then TurnInstruction(w.lastBearing.value, leg.bearing) else Straight;
    var turned := turn != Straight;
    var lines := if turned then w.lines + [turn + " onto " + leg.name] else w.lines;
    var acc' := if turned then 0.0 else acc;
    var lines' := if w.street.Some? && leg.name != w.street.value && acc' > 5.0 then lines + ["Continue on " + leg.name]
                  else lines;
    Walker(lines', Some(leg.bearing), acc', Some(leg.name))
  }

  /** The loop from step `i` on; a step without edge data changes nothing. */
  function Walk(legs: seq<Option<Leg>>, i: nat, w: Walker): Walker
    requires i <= |legs|
    decreases |legs| - i
  {
    if i == |legs| then w
    else Walk(legs, i + 1, if legs[i].Some? then Advance(w, legs[i].value) else w)
  }

  const Start := "Start your journey"
  const Arrive := "Arrive at destination"

  /** The instructions for the steps of a path: a path of more than one node has at least one step. */
  function Instructions(legs: seq<Option<Leg>>): seq<string> {
    Walk(legs, 0, Walker(if |legs| > 0 then [Start] else [], None, 0.0, None)).lines + [Arrive]
  }

  /** `generate_instructions(G, path_nodes, inverse_projector, weight_key)`: the coordinates and the instructions.
      The coordinates of a node do not depend on the lines, so they are gathered apart from the loop. */
  function Generate(env: Env): (seq<(real, real)>, seq<string>)
    requires OnGraph(env)
  {
    (Coords(env), Instructions(Legs(env)))
  }

  /** A line the loop may add: a turn onto a street, or a change of street. */
  ghost predicate TurnLine(line: string) {
    exists turn, name :: turn in {TurnRight, TurnLeft, UTurn} && line == turn + " onto " + name
  }

  ghost predicate ChangeLine(line: string) {
    exists name :: line == "Continue on " + name
  }

  /** The loop after `i` steps: the lines are the opening lines followed by turn and change lines, none of them
      before the first step with edge data and at most one for each later step. */
  ghost predicate Walked(i: nat, w: Walker, head: seq<string>) {
    && |head| <= |w.lines|
    && w.lines[..|head|] == head
    && (forall j :: |head| <= j < |w.lines| ==> TurnLine(w.lines[j]) || ChangeLine(w.lines[j]))
    && (w.lastBearing.None? <==> w.street.None?)
    && (w.lastBearing.None? ==> |w.lines| == |head|)
    && (w.lastBearing.Some? ==> |w.lines| - |head| + 1 <= i)
  }

  lemma {:induction false} AdvanceKeeps(i: nat, w: Walker, head: seq<string>, leg: Leg)
    requires Walked(i, w, head)
    ensures Walked(i + 1, Advance(w, leg), head)
  {
    var w' := Advance(w, leg);
    var turn := if w.lastBearing.Some? then TurnInstruction(w.lastBearing.value, leg.bearing) else Straight;
    if turn != Straight {
      TurnBands(w.lastBearing.value, leg.bearing);
      assert TurnLine(turn + " onto " + leg.name);
      assert w'.lines == w.lines + [turn + " onto " + leg.name];
    } else if w.street.Some? && leg.name != w.street.value && w.acc + leg.length > 5.0 {
      assert ChangeLine("Continue on " + leg.name);
      assert w'.lines == w.lines + ["Continue on " + leg.name];
    } else {
      assert w'.lines == w.lines;
    }
    assert w'.lines[..|head|] == w.lines[..|head|];
  }

  lemma {:induction false} WalkKeeps(legs: seq<Option<Leg>>, i: nat, w: Walker, head: seq<string>)
    requires i <= |legs| && Walked(i, w, head)
    ensures Walked(|legs|, Walk(legs, i, w), head)
    decreases |legs| - i
  {
    if i < |legs| {
      if legs[i].Some? {
        AdvanceKeeps(i, w, head, legs[i].value);
      }
      WalkKeeps(legs, i + 1, if legs[i].Some? then Advance(w, legs[i].value) else w, head);
    }
  }

  /** The instructions open with "Start your journey" exactly when there is a step and always close with "Arrive
      at destination"; every line between is a turn onto a street or a change of street, and there are fewer of
      them than steps, as the first step with edge data can emit neither. */
  lemma {:induction false} InstructionsShape(legs: seq<Option<Leg>>)
    ensures var lines := Instructions(legs);
      && |lines| >= 1 && lines[|lines| - 1] == Arrive
      && (lines[0] == Start <==> |legs| > 0)
      && (|legs| == 0 ==> lines == [Arrive])
      && (|legs| > 0 ==> |lines| <= |legs| + 1)
      && (forall j :: 0 < j < |lines| - 1 ==> TurnLine(lines[j]) || ChangeLine(lines[j]))
  {
    var head: seq<string> := if |legs| > 0 then [Start] else [];
    var w0 := Walker(head, None, 0.0, None);
    assert Walked(0, w0, head);
    WalkKeeps(legs, 0, w0, head);
    var w := Walk(legs, 0, w0);
    var lines := w.lines + [Arrive];
    if |legs| == 0 {
      assert w.lines == [];
    } else {
      assert lines[0] == w.lines[..1][0] == Start;
    }
    forall j | 0 < j < |lines| - 1
      ensures TurnLine(lines[j]) || ChangeLine(lines[j])
    {
      assert lines[j] == w.lines[j];
      if |legs| == 0 {
        assert false;
      }
    }
  }

  /** For a path: one `(lat, lon)` per node in path order; "Start your journey" exactly when the path has more than
      one node, "Arrive at destination" last, and at most `|path| - 2` lines between. */
  lemma {:induction false} GenerateShape(env: Env)
    requires OnGraph(env)
    ensures var (coords, lines) := Generate(env);
      && |coords| == |env.path|
      && (forall j :: 0 <= j < |env.path| ==> coords[j] == LatLon(env, j))
      && lines[|lines| - 1] == Arrive
      && (lines[0] == Start <==> |env.path| > 1)
      && (|env.path| <= 1 ==> lines == [Arrive])
      && (|env.path| > 1 ==> |lines| <= |env.path|)
  {
    InstructionsShape(Legs(env));
  }

  /** Along steps that all have edge data on one street and keep one bearing, the only instructions are the
      opening and the closing line, however long the route. */
  lemma {:induction false} StraightRouteIsQuiet(legs: seq<Option<Leg>>, street: string, b: real)
    requires |legs| > 0
    requires forall i :: 0 <= i < |legs| ==> legs[i].Some? && legs[i].value.name == street && legs[i].value.bearing == b
    ensures Instructions(legs) == [Start, Arrive]
  {
    SameBearingContinues(b);
    var w1 := Advance(Walker([Start], None, 0.0, None), legs[0].value);
    assert w1.lines == [Start] && w1.lastBearing == Some(b) && w1.street == Some(street);
    QuietWalk(legs, street, b, 1, w1);
  }

  lemma {:induction false} QuietWalk(legs: seq<Option<Leg>>, street: string, b: real, i: nat, w: Walker)
    requires 1 <= i <= |legs|
    requires forall i :: 0 <= i < |legs| ==> legs[i].Some? && legs[i].value.name == street && legs[i].value.bearing == b
    requires TurnInstruction(b, b) == Straight
    requires w.lines == [Start] && w.lastBearing == Some(b) && w.street == Some(street)
    ensures Walk(legs, i, w).lines == [Start]
    decreases |legs| - i
  {
    if i < |legs| {
      var w' := Advance(w, legs[i].value);
      assert w'.lines == [Start] && w'.lastBearing == Some(b) && w'.street == Some(street);
      QuietWalk(legs, street, b, i + 1, w');
    }
  }

  /** Going straight from one street onto another announces the new street exactly when more than 5 metres were
      covered on the two edges together. */
  lemma {:induction false} StreetChange(s1: string, s2: string, l1: real, l2: real, b: real)
    requires s1 != s2
    ensures Instructions([Some(Leg(s1, l1, b)), Some(Leg(s2, l2, b))])
         == if l1 + l2 > 5.0 then [Start, "Continue on " + s2, Arrive] else [Start, Arrive]
  {
    SameBearingContinues(b);
    var legs := [Some(Leg(s1, l1, b)), Some(Leg(s2, l2, b))];
    var w1 := Advance(Walker([Start], None, 0.0, None), Leg(s1, l1, b));
    assert w1 == Walker([Start], Some(b), l1, Some(s1));
    var w2 := Advance(w1, Leg(s2, l2, b));
    assert w2.lines == if l1 + l2 > 5.0 then [Start, "Continue on " + s2] else [Start];
    assert Walk(legs, 0, Walker([Start], None, 0.0, None)) == Walk(legs, 1, w1) == Walk(legs, 2, w2);
  }

  /** A turn is announced with the street turned onto, and it resets the distance on the current street: a change
      of street right after it is not announced again. */
  lemma {:induction false} TurnAnnounced(s1: string, s2: string, l1: real, l2: real, b1: real, b2: real)
    requires TurnInstruction(b1, b2) != Straight
    ensures Instructions([Some(Leg(s1, l1, b1)), Some(Leg(s2, l2, b2))])
         == [Start, TurnInstruction(b1, b2) + " onto " + s2, Arrive]
  {
    var legs := [Some(Leg(s1, l1, b1)), Some(Leg(s2, l2, b2))];
    var w1 := Advance(Walker([Start], None, 0.0, None), Leg(s1, l1, b1));
    assert w1 == Walker([Start], Some(b1), l1, Some(s1));
    var w2 := Advance(w1, Leg(s2, l2, b2));
    assert w2.lines == [Start, TurnInstruction(b1, b2) + " onto " + s2];
    assert Walk(legs, 0, Walker([Start], None, 0.0, None)) == Walk(legs, 1, w1) == Walk(legs, 2, w2);
  }
}
