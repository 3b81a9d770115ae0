/**
 * The accelerated A* search (`astar_cpp`) over the compact arrays: a min-priority queue with lazy
 * insertion (an improved node is pushed again, stale entries are never skipped), no closed set, and a
 * path rebuilt from `came_from` when the goal is popped.
 */
module CppSearch {
  import opened RoadGraph
  import opened Csr

  /** A queue entry `{id, f_score}`. */
  datatype Entry = Entry(node: nat, f: real)

  /** The per-node arrays `g_score` and `came_from`, plus bookkeeping that only the proofs read: `via[v]` is
      the slot through which `came_from[v]` was last set, `stamp[v]` the moment `g_score[v]` last changed,
      and `clock` the next moment. */
  datatype Scores = Scores(g: seq<Dist>, cameFrom: seq<int>, via: seq<nat>, stamp: seq<nat>, clock: nat)

  /** Slot `s` lies in the row of node `u`. */
  predicate InRow(c: Csr, u: nat, s: nat) {
    u + 1 < |c.rowPtr| && c.rowPtr[u] <= s < c.rowPtr[u + 1] && s < |c.cols| && s < |c.weights|
  }

  // ---------------------------------------------------------------------------------------
  // Walks through the arrays

  /** `nodes` is a walk that leaves `nodes[k]` through slot `slots[k]`. */
  ghost predicate IsWalk(c: Csr, nodes: seq<nat>, slots: seq<nat>) {
    && |nodes| == |slots| + 1
    && (forall k {:trigger slots[k]} :: 0 <= k < |slots| ==> InRow(c, nodes[k], slots[k]) && c.cols[slots[k]] == nodes[k + 1])
  }

  ghost predicate WalkFromTo(c: Csr, nodes: seq<nat>, slots: seq<nat>, s: nat, t: nat) {
    IsWalk(c, nodes, slots) && nodes[0] == s && nodes[|nodes| - 1] == t
  }

  /** The sum of the weights of the slots taken. */
  function Cost(c: Csr, slots: seq<nat>): real
    requires forall k :: 0 <= k < |slots| ==> slots[k] < |c.weights|
  {
    if slots == [] then 0.0 else Cost(c, slots[..|slots| - 1]) + c.weights[slots[|slots| - 1]]
  }

  ghost predicate Reachable(c: Csr, s: nat, t: nat) {
    exists nodes, slots :: WalkFromTo(c, nodes, slots, s, t)
  }

  /** `path` is a walk from `s` to `t` through some choice of slots no walk from `s` to `t` undercuts. */
  ghost predicate ShortestWalk(c: Csr, path: seq<nat>, s: nat, t: nat) {
    exists slots :: WalkFromTo(c, path, slots, s, t) &&
      forall nodes', slots' :: WalkFromTo(c, nodes', slots', s, t) ==> Cost(c, slots) <= Cost(c, slots')
  }

  /** The heuristic never drops by more than the weight of a slot. */
  ghost predicate Consistent(c: Csr, h: nat -> real) {
    forall u: nat, s: nat :: InRow(c, u, s) ==> h(u) <= c.weights[s] + h(c.cols[s])
  }

  lemma {:induction false} CostPrepend(c: Csr, s: nat, slots: seq<nat>)
    requires s < |c.weights| && forall k :: 0 <= k < |slots| ==> slots[k] < |c.weights|
    ensures Cost(c, [s] + slots) == c.weights[s] + Cost(c, slots)
    decreases |slots|
  {
    if slots != [] {
      var m := |slots| - 1;
      assert ([s] + slots)[..m + 1] == [s] + slots[..m];
      CostPrepend(c, s, slots[..m]);
    }
  }

  lemma {:induction false} WalkPrepend(c: Csr, u: nat, s: nat, nodes: seq<nat>, slots: seq<nat>)
    requires IsWalk(c, nodes, slots) && InRow(c, u, s) && c.cols[s] == nodes[0]
    ensures IsWalk(c, [u] + nodes, [s] + slots)
  {
    var nodes', slots' := [u] + nodes, [s] + slots;
    forall k | 0 <= k < |slots'|
      ensures InRow(c, nodes'[k], slots'[k]) && c.cols[slots'[k]] == nodes'[k + 1]
    {
      if k > 0 {
        assert nodes'[k] == nodes[k - 1] && slots'[k] == slots[k - 1] && nodes'[k + 1] == nodes[k];
      }
    }
  }

  lemma {:induction false} WalkFront(c: Csr, nodes: seq<nat>, slots: seq<nat>)
    requires IsWalk(c, nodes, slots) && |slots| > 0
    ensures IsWalk(c, nodes[..|slots|], slots[..|slots| - 1])
  {
    var m := |slots| - 1;
    forall k | 0 <= k < m
      ensures InRow(c, nodes[..m + 1][k], slots[..m][k]) && c.cols[slots[..m][k]] == nodes[..m + 1][k + 1]
    {
      assert nodes[..m + 1][k] == nodes[k] && nodes[..m + 1][k + 1] == nodes[k + 1] && slots[..m][k] == slots[k];
    }
  }

  // ---------------------------------------------------------------------------------------
  // The search state and its invariants

  /** The state of the search: the per-node arrays and the queue. */
  datatype Search = Search(sc: Scores, open: multiset<Entry>)

  predicate Shape(c: Csr, sc: Scores) {
    && |sc.g| == c.n && |sc.cameFrom| == c.n && |sc.via| == c.n && |sc.stamp| == c.n
    && (forall v :: 0 <= v < c.n ==> -1 <= sc.cameFrom[v] < c.n)
  }

  /** `x` comes before `y`: cheaper, or as cheap and changed earlier. */
  ghost predicate Before(sc: Scores, x: nat, y: nat)
    requires x < |sc.g| && y < |sc.g| && x < |sc.stamp| && y < |sc.stamp|
  {
    && sc.g[x].Fin? && sc.g[y].Fin?
    && (sc.g[x].val < sc.g[y].val || (sc.g[x].val == sc.g[y].val && sc.stamp[x] < sc.stamp[y]))
  }

  /** `came_from[v]` names a node with a slot to `v`, whose cost plus that slot's weight is at most `v`'s,
      and which comes before `v`. */
  ghost predicate Linked(c: Csr, sc: Scores, v: nat)
    requires ValidCsr(c) && Shape(c, sc) && v < c.n && sc.cameFrom[v] != -1
  {
    var u := sc.cameFrom[v];
    var s := sc.via[v];
    && InRow(c, u, s) && c.cols[s] == v
    && sc.g[u].Fin? && sc.g[v].Fin? && sc.g[u].val + c.weights[s] <= sc.g[v].val
    && Before(sc, u, v)
  }

  ghost predicate Sound(c: Csr, start: nat, sc: Scores)
    requires ValidCsr(c) && Shape(c, sc)
  {
    && start < c.n && sc.g[start] == Fin(0.0) && sc.cameFrom[start] == -1
    && (forall v :: 0 <= v < c.n && sc.g[v].Fin? ==> sc.g[v].val >= 0.0)
    && (forall v :: 0 <= v < c.n && v != start && sc.g[v].Fin? ==> sc.cameFrom[v] != -1)
    && (forall v {:trigger Linked(c, sc, v)} :: 0 <= v < c.n && sc.cameFrom[v] != -1 ==> Linked(c, sc, v))
    && (forall v :: 0 <= v < c.n ==> sc.stamp[v] < sc.clock)
  }

  /** Every queue entry is for a reached node, with an f-score no smaller than that node's current one. */
  ghost predicate Queued(c: Csr, h: nat -> real, sc: Scores, open: multiset<Entry>)
    requires Shape(c, sc)
  {
    forall e :: e in open ==> e.node < c.n && sc.g[e.node].Fin? && e.f >= sc.g[e.node].val + h(e.node)
  }

  /** The slots of `u`'s row before `k` lead to nodes no costlier than through `u`. */
  ghost predicate RowDone(c: Csr, sc: Scores, u: nat, k: nat)
    requires ValidCsr(c) && Shape(c, sc) && u < c.n && sc.g[u].Fin?
  {
    forall s :: c.rowPtr[u] <= s < k && s < c.rowPtr[u + 1] ==>
      sc.g[c.cols[s]].Fin? && sc.g[c.cols[s]].val <= sc.g[u].val + c.weights[s]
  }

  /** No slot out of `x` improves on its target. */
  ghost predicate Relaxed(c: Csr, sc: Scores, x: nat)
    requires ValidCsr(c) && Shape(c, sc) && x < c.n
  {
    sc.g[x].Fin? && RowDone(c, sc, x, c.rowPtr[x + 1])
  }

  /** A reached node is relaxed or has an entry with its current f-score. */
  ghost predicate Current(c: Csr, h: nat -> real, sc: Scores, open: multiset<Entry>, x: nat)
    requires ValidCsr(c) && Shape(c, sc) && x < c.n
  {
    sc.g[x].Fin? ==> Relaxed(c, sc, x) || Entry(x, sc.g[x].val + h(x)) in open
  }

  /** Every node other than `u` is current. */
  ghost predicate FrontierExcept(c: Csr, h: nat -> real, sc: Scores, open: multiset<Entry>, u: int)
    requires ValidCsr(c) && Shape(c, sc)
  {
    forall x {:trigger Current(c, h, sc, open, x)} :: 0 <= x < c.n && x != u ==> Current(c, h, sc, open, x)
  }

  /** Once reached, the goal has an entry with its current f-score. */
  ghost predicate GoalQueued(c: Csr, h: nat -> real, goal: nat, sc: Scores, open: multiset<Entry>)
    requires Shape(c, sc) && goal < c.n
  {
    sc.g[goal].Fin? ==> Entry(goal, sc.g[goal].val + h(goal)) in open
  }

  ghost predicate Inv(c: Csr, h: nat -> real, start: nat, goal: nat, st: Search) {
    && ValidCsr(c) && NonNegativeWeights(c) && Shape(c, st.sc) && goal < c.n
    && Sound(c, start, st.sc) && Queued(c, h, st.sc, st.open)
    && FrontierExcept(c, h, st.sc, st.open, -1) && GoalQueued(c, h, goal, st.sc, st.open)
  }

  // ---------------------------------------------------------------------------------------
  // Steps

  /** `g_score[start] = 0; open_set.push({start, h(start)})` */
  function Init(c: Csr, h: nat -> real, start: nat): (st: Search)
    requires start < c.n
  {
    Search(Scores(seq(c.n, v => if v == start then Fin(0.0) else Inf), seq(c.n, _ => -1),
                  seq(c.n, _ => 0), seq(c.n, _ => 0), 1),
           multiset{Entry(start, h(start))})
  }

  /** The starting state satisfies the invariant: only the start is reached, and it is queued. */
  lemma {:induction false} InitInv(c: Csr, h: nat -> real, start: nat, goal: nat)
    requires ValidCsr(c) && NonNegativeWeights(c) && start < c.n && goal < c.n
    ensures Inv(c, h, start, goal, Init(c, h, start))
    ensures Init(c, h, start).open == multiset{Entry(start, h(start))}
  {
    var sc := Init(c, h, start).sc;
    assert forall v :: 0 <= v < c.n ==> sc.cameFrom[v] == -1 && sc.stamp[v] == 0;
    assert forall v :: 0 <= v < c.n ==> (sc.g[v].Fin? <==> v == start);
  }

  /** One iteration of the inner loop: relax slot `s` out of `u`, pushing the target when it improves. */
  function RelaxSlot(c: Csr, h: nat -> real, st: Search, u: nat, s: nat): (r: Search)
    requires ValidCsr(c) && Shape(c, st.sc) && u < c.n && st.sc.g[u].Fin? && InRow(c, u, s)
  {
    var sc := st.sc;
    var v := c.cols[s];
    var t := sc.g[u].val + c.weights[s];
    if Improves(t, sc.g[v]) then
      Search(Scores(sc.g[v := Fin(t)], sc.cameFrom[v := u], sc.via[v := s], sc.stamp[v := sc.clock], sc.clock + 1),
             st.open + multiset{Entry(v, t + h(v))})
    else st
  }

  /** Relaxing a slot changes at most its target, whose cost only goes down and ends up no larger than
      through `u`; when it changes, the target is pushed with its new f-score. `u` keeps its cost. */
  lemma {:induction false} RelaxSlotEffect(c: Csr, h: nat -> real, st: Search, u: nat, s: nat)
    requires ValidCsr(c) && NonNegativeWeights(c) && Shape(c, st.sc) && u < c.n && st.sc.g[u].Fin? && InRow(c, u, s)
    ensures var r := RelaxSlot(c, h, st, u, s).sc; var v := c.cols[s];
      && Shape(c, r) && r.g[u] == st.sc.g[u]
      && r.g[v].Fin? && r.g[v].val <= st.sc.g[u].val + c.weights[s]
      && (forall x :: 0 <= x < c.n && x != v ==> r.g[x] == st.sc.g[x] && r.cameFrom[x] == st.sc.cameFrom[x] &&
                                                  r.via[x] == st.sc.via[x] && r.stamp[x] == st.sc.stamp[x])
      && (r.g[v] == st.sc.g[v] || (Improves(r.g[v].val, st.sc.g[v]) &&
                                   Entry(v, r.g[v].val + h(v)) in RelaxSlot(c, h, st, u, s).open))
      && st.open <= RelaxSlot(c, h, st, u, s).open
  {
  }

  lemma {:induction false} RelaxSlotSound(c: Csr, h: nat -> real, start: nat, st: Search, u: nat, s: nat)
    requires ValidCsr(c) && NonNegativeWeights(c) && Shape(c, st.sc) && Sound(c, start, st.sc)
    requires u < c.n && st.sc.g[u].Fin? && InRow(c, u, s)
    ensures Shape(c, RelaxSlot(c, h, st, u, s).sc) && Sound(c, start, RelaxSlot(c, h, st, u, s).sc)
  {
    RelaxSlotEffect(c, h, st, u, s);
    var sc := st.sc;
    var r := RelaxSlot(c, h, st, u, s).sc;
    var v := c.cols[s];
    var t := sc.g[u].val + c.weights[s];
    if Improves(t, sc.g[v]) {
      assert v != start && v != u;
      assert r.g[v] == Fin(t) && r.cameFrom[v] == u && r.via[v] == s && r.stamp[v] == sc.clock;
      assert sc.stamp[u] < sc.clock;
      forall x | 0 <= x < c.n && r.cameFrom[x] != -1 ensures Linked(c, r, x) {
        if x != v {
          assert Linked(c, sc, x);
        }
      }
    }
  }

  lemma {:induction false} RelaxSlotQueued(c: Csr, h: nat -> real, goal: nat, st: Search, u: nat, s: nat)
    requires ValidCsr(c) && NonNegativeWeights(c) && Shape(c, st.sc) && goal < c.n
    requires Queued(c, h, st.sc, st.open) && GoalQueued(c, h, goal, st.sc, st.open)
    requires u < c.n && st.sc.g[u].Fin? && InRow(c, u, s)
    ensures var r := RelaxSlot(c, h, st, u, s);
      Shape(c, r.sc) && Queued(c, h, r.sc, r.open) && GoalQueued(c, h, goal, r.sc, r.open)
  {
    RelaxSlotEffect(c, h, st, u, s);
  }

  lemma {:induction false} RelaxSlotFrontier(c: Csr, h: nat -> real, st: Search, u: nat, k: nat)
    requires ValidCsr(c) && NonNegativeWeights(c) && Shape(c, st.sc)
    requires u < c.n && st.sc.g[u].Fin? && InRow(c, u, k)
    requires FrontierExcept(c, h, st.sc, st.open, u) && RowDone(c, st.sc, u, k)
    ensures var r := RelaxSlot(c, h, st, u, k);
      && Shape(c, r.sc) && r.sc.g[u] == st.sc.g[u]
      && FrontierExcept(c, h, r.sc, r.open, u) && RowDone(c, r.sc, u, k + 1)
  {
    RelaxSlotEffect(c, h, st, u, k);
    var r := RelaxSlot(c, h, st, u, k);
    forall x | 0 <= x < c.n && x != u ensures Current(c, h, r.sc, r.open, x) {
      assert Current(c, h, st.sc, st.open, x);
      RelaxSlotCurrent(c, h, st, u, k, x);
    }
  }

  /** A node that was current stays current when a slot out of another node is relaxed. */
  lemma {:induction false} RelaxSlotCurrent(c: Csr, h: nat -> real, st: Search, u: nat, k: nat, x: nat)
    requires ValidCsr(c) && NonNegativeWeights(c) && Shape(c, st.sc)
    requires u < c.n && st.sc.g[u].Fin? && InRow(c, u, k) && x < c.n && x != u
    requires Current(c, h, st.sc, st.open, x)
    ensures Shape(c, RelaxSlot(c, h, st, u, k).sc)
    ensures Current(c, h, RelaxSlot(c, h, st, u, k).sc, RelaxSlot(c, h, st, u, k).open, x)
  {
    RelaxSlotEffect(c, h, st, u, k);
    var r := RelaxSlot(c, h, st, u, k);
    if x != c.cols[k] && Relaxed(c, st.sc, x) {
      forall s | c.rowPtr[x] <= s < c.rowPtr[x + 1]
        ensures r.sc.g[c.cols[s]].Fin? && r.sc.g[c.cols[s]].val <= r.sc.g[x].val + c.weights[s]
      {
        assert st.sc.g[c.cols[s]].Fin? && st.sc.g[c.cols[s]].val <= st.sc.g[x].val + c.weights[s];
      }
      assert Relaxed(c, r.sc, x);
    }
  }

  /** Once every slot of `u`'s row is done, the frontier holds for `u` as well. */
  lemma {:induction false} RowFinished(c: Csr, h: nat -> real, sc: Scores, open: multiset<Entry>, u: nat)
    requires ValidCsr(c) && Shape(c, sc) && u < c.n && sc.g[u].Fin?
    requires FrontierExcept(c, h, sc, open, u) && RowDone(c, sc, u, c.rowPtr[u + 1])
    ensures FrontierExcept(c, h, sc, open, -1)
  {
    assert Relaxed(c, sc, u);
  }

  /** `e` is an entry of `m` with the least f-score. */
  predicate Least(e: Entry, m: multiset<Entry>) {
    e in m && forall e' :: e' in m ==> e.f <= e'.f
  }

  /** A non-empty queue has an entry with the least f-score. */
  lemma {:induction false} MinEntryExists(m: multiset<Entry>)
    requires m != multiset{}
    ensures exists e :: Least(e, m)
    decreases |m|
  {
    var x :| x in m;
    var rest := m - multiset{x};
    if rest == multiset{} {
      assert Least(x, m) by { assert m == multiset{x}; }
    } else {
      MinEntryExists(rest);
      var y :| Least(y, rest);
      LeastOfOneMore(x, y, m);
    }
  }

  /** The lesser of `x` and the least entry of the rest of `m` is a least entry of `m`. */
  lemma {:induction false} LeastOfOneMore(x: Entry, y: Entry, m: multiset<Entry>)
    requires x in m && Least(y, m - multiset{x})
    ensures Least(if x.f <= y.f then x else y, m)
  {
    var rest := m - multiset{x};
    var z := if x.f <= y.f then x else y;
    assert y in m by { assert m[y] >= rest[y]; }
    forall e' | e' in m ensures z.f <= e'.f {
      if e' != x {
        assert rest[e'] == m[e'];
      }
    }
  }

  /** Popping an entry other than the goal's keeps the queue invariants, with the frontier suspended at the
      popped node until its row has been relaxed. */
  lemma {:induction false} PopKeeps(c: Csr, h: nat -> real, goal: nat, sc: Scores, open: multiset<Entry>, e: Entry)
    requires ValidCsr(c) && Shape(c, sc) && goal < c.n
    requires Queued(c, h, sc, open) && FrontierExcept(c, h, sc, open, -1) && GoalQueued(c, h, goal, sc, open)
    requires e in open && e.node != goal
    ensures var rest := open - multiset{e};
      && Queued(c, h, sc, rest) && GoalQueued(c, h, goal, sc, rest)
      && FrontierExcept(c, h, sc, rest, e.node) && e.node < c.n && sc.g[e.node].Fin?
  {
    var rest := open - multiset{e};
    forall x | 0 <= x < c.n && x != e.node ensures Current(c, h, sc, rest, x) {
      assert Current(c, h, sc, open, x);
    }
  }

  // ---------------------------------------------------------------------------------------
  // What the invariant gives at the end

  /** Along a walk from the start, either the walk's cost bounds the cost at its end, or the least f-score
      in the queue is no larger than the walk's cost plus the heuristic at its end. */
  lemma {:induction false} WalkBound(c: Csr, h: nat -> real, start: nat, sc: Scores, open: multiset<Entry>, e: Entry,
                                     nodes: seq<nat>, slots: seq<nat>)
    requires ValidCsr(c) && Shape(c, sc) && start < c.n && sc.g[start] == Fin(0.0)
    requires FrontierExcept(c, h, sc, open, -1) && Consistent(c, h)
    requires Least(e, open)
    requires IsWalk(c, nodes, slots) && nodes[0] == start
    ensures nodes[|nodes| - 1] < c.n
    ensures var z := nodes[|nodes| - 1];
      (sc.g[z].Fin? && sc.g[z].val <= Cost(c, slots)) || e.f <= Cost(c, slots) + h(z)
    decreases |slots|
  {
    if slots != [] {
      var m := |slots| - 1;
      WalkFront(c, nodes, slots);
      WalkBound(c, h, start, sc, open, e, nodes[..m + 1], slots[..m]);
      var p, s, q := nodes[m], slots[m], nodes[m + 1];
      assert nodes[..m + 1][m] == p;
      assert InRow(c, p, s) && c.cols[s] == q;
      assert h(p) <= c.weights[s] + h(q);
      assert Cost(c, slots) == Cost(c, slots[..m]) + c.weights[s];
      if sc.g[p].Fin? && sc.g[p].val <= Cost(c, slots[..m]) {
        assert Current(c, h, sc, open, p);
      }
    }
  }

  /** When the goal's entry is the least in the queue, no walk from the start to the goal is cheaper than
      the goal's cost. */
  lemma {:induction false} GoalPopOptimal(c: Csr, h: nat -> real, start: nat, goal: nat, st: Search, e: Entry)
    requires Inv(c, h, start, goal, st) && Consistent(c, h)
    requires Least(e, st.open) && e.node == goal
    ensures st.sc.g[goal].Fin?
    ensures forall nodes, slots :: WalkFromTo(c, nodes, slots, start, goal) ==> st.sc.g[goal].val <= Cost(c, slots)
  {
    forall nodes, slots | WalkFromTo(c, nodes, slots, start, goal) ensures st.sc.g[goal].val <= Cost(c, slots) {
      WalkBound(c, h, start, st.sc, st.open, e, nodes, slots);
    }
  }

  /** With every reached node relaxed, every node a walk from the start reaches is reached. */
  lemma {:induction false} WalkReached(c: Csr, h: nat -> real, start: nat, sc: Scores,
                                       nodes: seq<nat>, slots: seq<nat>)
    requires ValidCsr(c) && Shape(c, sc) && start < c.n && sc.g[start] == Fin(0.0)
    requires FrontierExcept(c, h, sc, multiset{}, -1)
    requires IsWalk(c, nodes, slots) && nodes[0] == start
    ensures nodes[|nodes| - 1] < c.n && sc.g[nodes[|nodes| - 1]].Fin?
    decreases |slots|
  {
    if slots != [] {
      var m := |slots| - 1;
      WalkFront(c, nodes, slots);
      WalkReached(c, h, start, sc, nodes[..m + 1], slots[..m]);
      var p, s := nodes[m], slots[m];
      assert nodes[..m + 1][m] == p;
      assert InRow(c, p, s);
      assert Current(c, h, sc, multiset{}, p);
    }
  }

  /** An exhausted queue means the goal cannot be reached. */
  lemma {:induction false} EmptyQueueUnreachable(c: Csr, h: nat -> real, start: nat, goal: nat, st: Search)
    requires Inv(c, h, start, goal, st) && st.open == multiset{}
    ensures !Reachable(c, start, goal)
  {
    forall nodes, slots | WalkFromTo(c, nodes, slots, start, goal) ensures false {
      WalkReached(c, h, start, st.sc, nodes, slots);
    }
  }

  /** A walk whose cost is within a bound that no walk undercuts is a shortest walk. */
  lemma {:induction false} BoundedIsShortest(c: Csr, path: seq<nat>, slots: seq<nat>, s: nat, t: nat, bound: real)
    requires WalkFromTo(c, path, slots, s, t) && Cost(c, slots) <= bound
    requires forall nodes, slots' :: WalkFromTo(c, nodes, slots', s, t) ==> bound <= Cost(c, slots')
    ensures ShortestWalk(c, path, s, t)
  {
  }

  // ---------------------------------------------------------------------------------------
  // Reconstruction

  /** The nodes that come before `y`. */
  ghost function Earlier(c: Csr, sc: Scores, y: nat): set<nat>
    requires Shape(c, sc) && y < c.n
  {
    set x: nat | x < c.n && Before(sc, x, y)
  }

  lemma {:induction false} EarlierShrinks(c: Csr, sc: Scores, x: nat, y: nat)
    requires Shape(c, sc) && x < c.n && y < c.n && Before(sc, x, y)
    ensures |Earlier(c, sc, x)| < |Earlier(c, sc, y)|
  {
    var a, b := Earlier(c, sc, x), Earlier(c, sc, y);
    assert a <= b;
    assert x in b - a;
    assert b == a + (b - a) && a * (b - a) == {};
  }

  /** The reconstruction so far: `path` (empty before the first step) is a walk ending at the goal through
      `slots`, within the goal's cost, and `curr` is `came_from` of its first node. */
  ghost predicate Trail(c: Csr, goal: nat, sc: Scores, path: seq<nat>, slots: seq<nat>, curr: int)
    requires Shape(c, sc) && goal < c.n
  {
    && -1 <= curr < c.n && sc.g[goal].Fin?
    && (path == [] ==> curr == goal && slots == [])
    && (path != [] ==> && IsWalk(c, path, slots) && path[|path| - 1] == goal && path[0] < c.n
                       && curr == sc.cameFrom[path[0]] && sc.g[path[0]].Fin?
                       && sc.g[path[0]].val + Cost(c, slots) <= sc.g[goal].val)
  }

  ghost function Remaining(c: Csr, sc: Scores, curr: int): nat
    requires Shape(c, sc) && -1 <= curr < c.n
  {
    if curr == -1 then 0 else |Earlier(c, sc, curr)| + 1
  }

  /** The path after one more step: `curr` in front. */
  function GrowPath(path: seq<nat>, curr: nat): (r: seq<nat>)
    ensures |r| == |path| + 1 && r[0] == curr && r[1..] == path
  {
    [curr] + path
  }

  /** The slots after one more step: none for the first node, then the slot `via` the old first node. */
  function GrowSlots(sc: Scores, path: seq<nat>, slots: seq<nat>): (r: seq<nat>)
    requires path != [] ==> path[0] < |sc.via|
    ensures path == [] ==> r == slots
    ensures path != [] ==> |r| == |slots| + 1 && r[0] == sc.via[path[0]] && r[1..] == slots
  {
    if path == [] then slots else [sc.via[path[0]]] + slots
  }

  /** One step of the reconstruction keeps the trail and gets closer to a node without `came_from`. */
  lemma {:induction false} TrailStep(c: Csr, start: nat, goal: nat, sc: Scores, path: seq<nat>, slots: seq<nat>, curr: int)
    requires ValidCsr(c) && Shape(c, sc) && Sound(c, start, sc) && goal < c.n
    requires Trail(c, goal, sc, path, slots, curr) && curr != -1
    requires start == goal ==> |path| <= 1
    ensures path != [] ==> path[0] < |sc.via|
    ensures && Trail(c, goal, sc, GrowPath(path, curr), GrowSlots(sc, path, slots), sc.cameFrom[curr])
      && Remaining(c, sc, sc.cameFrom[curr]) < Remaining(c, sc, curr)
      && (start == goal ==> |GrowPath(path, curr)| <= 1)
  {
    if path != [] {
      TrailGrows(c, start, goal, sc, path, slots, curr);
    } else {
      TrailBegins(c, goal, sc, curr);
    }
    RemainingShrinks(c, start, sc, curr);
  }

  /** The first step puts the goal on the trail. */
  lemma {:induction false} TrailBegins(c: Csr, goal: nat, sc: Scores, curr: int)
    requires ValidCsr(c) && Shape(c, sc) && goal < c.n
    requires Trail(c, goal, sc, [], [], curr) && curr != -1
    ensures Trail(c, goal, sc, GrowPath([], curr), GrowSlots(sc, [], []), sc.cameFrom[curr])
  {
    assert GrowPath([], curr) == [goal];
  }

  /** A later step prepends `came_from` of the trail's first node. */
  lemma {:induction false} TrailGrows(c: Csr, start: nat, goal: nat, sc: Scores, path: seq<nat>, slots: seq<nat>, curr: int)
    requires ValidCsr(c) && Shape(c, sc) && Sound(c, start, sc) && goal < c.n
    requires Trail(c, goal, sc, path, slots, curr) && curr != -1 && path != []
    requires start == goal ==> |path| <= 1
    ensures path[0] < |sc.via| && start != goal
    ensures Trail(c, goal, sc, GrowPath(path, curr), GrowSlots(sc, path, slots), sc.cameFrom[curr])
  {
    ReconstructStep(c, start, goal, sc, path, slots);
    assert GrowPath(path, curr) == [curr] + path;
    assert GrowSlots(sc, path, slots) == [sc.via[path[0]]] + slots;
  }

  /** `came_from` leads to a node that comes earlier. */
  lemma {:induction false} RemainingShrinks(c: Csr, start: nat, sc: Scores, curr: nat)
    requires ValidCsr(c) && Shape(c, sc) && Sound(c, start, sc) && curr < c.n
    ensures Remaining(c, sc, sc.cameFrom[curr]) < Remaining(c, sc, curr)
  {
    var next := sc.cameFrom[curr];
    if next != -1 {
      assert Linked(c, sc, curr);
      EarlierShrinks(c, sc, next, curr);
    }
  }

  /** Follow `came_from` back from the goal, building the path front to back. */
  method Reconstruct(c: Csr, start: nat, goal: nat, sc: Scores) returns (path: seq<nat>, ghost slots: seq<nat>)
    requires ValidCsr(c) && Shape(c, sc) && Sound(c, start, sc) && goal < c.n && sc.g[goal].Fin?
    ensures WalkFromTo(c, path, slots, start, goal)
    ensures Cost(c, slots) <= sc.g[goal].val
    ensures start == goal ==> path == [start]
  {
    path, slots := [], [];
    var curr: int := goal;
    while curr != -1
      invariant Trail(c, goal, sc, path, slots, curr)
      invariant start == goal ==> |path| <= 1
      decreases Remaining(c, sc, curr)
    {
      TrailStep(c, start, goal, sc, path, slots, curr);
      path, slots := GrowPath(path, curr), GrowSlots(sc, path, slots);
      curr := sc.cameFrom[curr];
    }
    TrailEnd(c, start, goal, sc, path, slots);
  }

  /** Prepending `came_from` of the path's first node keeps it a walk, within the goal's cost. */
  lemma {:induction false} ReconstructStep(c: Csr, start: nat, goal: nat, sc: Scores, path: seq<nat>, slots: seq<nat>)
    requires ValidCsr(c) && Shape(c, sc) && Sound(c, start, sc)
    requires IsWalk(c, path, slots) && path[0] < c.n && sc.cameFrom[path[0]] != -1 && goal < c.n && sc.g[goal].Fin?
    requires sc.g[path[0]].Fin? && sc.g[path[0]].val + Cost(c, slots) <= sc.g[goal].val
    ensures var u, s := sc.cameFrom[path[0]], sc.via[path[0]];
      && u >= 0 && s < |c.weights|
      && IsWalk(c, [u] + path, [s] + slots) && sc.g[u].Fin?
      && sc.g[u].val + Cost(c, [s] + slots) <= sc.g[goal].val
  {
    var u, s := sc.cameFrom[path[0]], sc.via[path[0]];
    assert Linked(c, sc, path[0]);
    WalkPrepend(c, u, s, path, slots);
    CostPrepend(c, s, slots);
  }

  /** When `came_from` runs out, the trail starts at the start. */
  lemma {:induction false} TrailEnd(c: Csr, start: nat, goal: nat, sc: Scores, path: seq<nat>, slots: seq<nat>)
    requires ValidCsr(c) && Shape(c, sc) && Sound(c, start, sc) && goal < c.n
    requires Trail(c, goal, sc, path, slots, -1) && (start == goal ==> |path| <= 1)
    ensures WalkFromTo(c, path, slots, start, goal) && Cost(c, slots) <= sc.g[goal].val
    ensures start == goal ==> path == [start]
  {
    if start == goal {
      assert |path| == 1 && path[0] == start;
    }
  }

  // ---------------------------------------------------------------------------------------
  // The search

  /** The inner loop: relax every slot of `u`'s row in order, after which `u` is relaxed too. */
  method ExpandRow(c: Csr, h: nat -> real, start: nat, goal: nat, st0: Search, u: nat) returns (st: Search)
    requires ValidCsr(c) && NonNegativeWeights(c) && Shape(c, st0.sc) && goal < c.n && u < c.n
    requires Sound(c, start, st0.sc) && Queued(c, h, st0.sc, st0.open) && GoalQueued(c, h, goal, st0.sc, st0.open)
    requires FrontierExcept(c, h, st0.sc, st0.open, u) && st0.sc.g[u].Fin?
    ensures Inv(c, h, start, goal, st)
  {
    st := st0;
    var k := c.rowPtr[u];
    while k < c.rowPtr[u + 1]
      invariant c.rowPtr[u] <= k <= c.rowPtr[u + 1]
      invariant Shape(c, st.sc) && Sound(c, start, st.sc) && Queued(c, h, st.sc, st.open)
      invariant GoalQueued(c, h, goal, st.sc, st.open)
      invariant st.sc.g[u] == st0.sc.g[u]
      invariant FrontierExcept(c, h, st.sc, st.open, u) && RowDone(c, st.sc, u, k)
    {
      RelaxSlotSound(c, h, start, st, u, k);
      RelaxSlotQueued(c, h, goal, st, u, k);
      RelaxSlotFrontier(c, h, st, u, k);
      st := RelaxSlot(c, h, st, u, k);
      k := k + 1;
    }
    RowFinished(c, h, st.sc, st.open, u);
  }

  /** `astar_cpp(...)`: `h(u)` stands for the straight-line distance from `u` to the goal; `fuel` bounds the
      number of pops, and `exhausted` reports that the bound stopped the search. */
  method AStarCpp(c: Csr, h: nat -> real, start: nat, goal: nat, fuel: nat) returns (path: seq<nat>, exhausted: bool)
    requires ValidCsr(c) && NonNegativeWeights(c) && start < c.n && goal < c.n
    ensures exhausted ==> path == []
    ensures path != [] ==> exists slots :: WalkFromTo(c, path, slots, start, goal)
    ensures path != [] && Consistent(c, h) ==> ShortestWalk(c, path, start, goal)
    ensures path == [] && !exhausted ==> !Reachable(c, start, goal)
    ensures start == goal && fuel > 0 ==> path == [start]
  {
    var st := Init(c, h, start);
    InitInv(c, h, start, goal);
    var left := fuel;
    while st.open != multiset{}
      invariant Inv(c, h, start, goal, st)
      invariant start == goal ==> st.open == multiset{Entry(start, h(start))} && left == fuel
      decreases left
    {
      if left == 0 {
        return [], true;
      }
      left := left - 1;
      MinEntryExists(st.open);
      var e :| Least(e, st.open);
      var u := e.node;
      if u == goal {
        ghost var slots: seq<nat>;
        path, slots := Reconstruct(c, start, goal, st.sc);
        assert Consistent(c, h) ==> ShortestWalk(c, path, start, goal) by {
          if Consistent(c, h) {
            GoalPopOptimal(c, h, start, goal, st, e);
            BoundedIsShortest(c, path, slots, start, goal, st.sc.g[goal].val);
          }
        }
        return path, false;
      }
      PopKeeps(c, h, goal, st.sc, st.open, e);
      st := ExpandRow(c, h, start, goal, st.(open := st.open - multiset{e}), u);
    }
    EmptyQueueUnreachable(c, h, start, goal, st);
    return [], false;
  }
}
