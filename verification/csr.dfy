/**
 * The compact (CSR-like) form of a road graph that the accelerated search runs on,
 * and the conversion that builds it from a multigraph and one weight key.
 */
module Csr {
  import opened Wrappers
  import opened RoadGraph

  /** Flat adjacency: the out-edges of node `u` occupy slots `rowPtr[u] .. rowPtr[u+1]` of `cols`/`weights`. */
  datatype Csr = Csr(n: nat, rowPtr: seq<nat>, cols: seq<nat>, weights: seq<real>)

  /** Everything the conversion returns: the arrays, the coordinates and both directions of the id/index table. */
  datatype Compact = Compact(csr: Csr, xs: seq<real>, ys: seq<real>,
                             nodeToIdx: map<NodeId, nat>, idxToNode: map<nat, NodeId>)

  /** The shape the accelerated search needs for every array access to be in bounds. */
  predicate ValidCsr(c: Csr) {
    && |c.rowPtr| == c.n + 1
    && (forall i, j :: 0 <= i <= j <= c.n ==> c.rowPtr[i] <= c.rowPtr[j])
    && c.rowPtr[c.n] <= |c.cols|
    && |c.cols| == |c.weights|
    && (forall j :: 0 <= j < |c.cols| ==> c.cols[j] < c.n)
  }

  predicate NonNegativeWeights(c: Csr) {
    forall j :: 0 <= j < |c.weights| ==> c.weights[j] >= 0.0
  }

  /** One slot of a row: neighbour index and collapsed weight. */
  datatype Slot = Slot(col: nat, weight: real)

  /** `{node_id: i for i, node_id in enumerate(nodes)}`: a later duplicate id would overwrite an earlier one. */
  function ToIndex(ns: seq<Node>): (m: map<NodeId, nat>)
    ensures forall id :: id in m <==> id in Ids(ns)
    ensures forall id :: id in m ==> m[id] < |ns| && ns[m[id]].id == id
  {
    if ns == [] then map[]
    else
      var front := ns[..|ns| - 1];
      IdsOfFront(ns);
      ToIndex(front)[ns[|ns| - 1].id := |ns| - 1]
  }

  lemma {:induction false} IdsOfFront(ns: seq<Node>)
    requires ns != []
    ensures Ids(ns) == Ids(ns[..|ns| - 1]) + [ns[|ns| - 1].id]
  {
    var front := ns[..|ns| - 1];
    assert forall i :: 0 <= i < |front| ==> Ids(front)[i] == Ids(ns)[i];
  }

  /** `{i: node_id for i, node_id in enumerate(nodes)}` */
  function FromIndex(ns: seq<Node>): (m: map<nat, NodeId>)
    ensures forall i: nat :: i < |ns| ==> i in m
    ensures forall i :: i in m ==> i < |ns| && m[i] == ns[i].id
  {
    map i: nat | i < |ns| :: ns[i].id
  }

  /** The slot a neighbour contributes: its index and the minimum `key` over its parallel edges, if any edge has the key. */
  function LinkSlot(link: Link, key: string, toIdx: map<NodeId, nat>): Option<Slot>
    requires link.to in toIdx
  {
    match MinKey(link.edges, key)
    case None => None
    case Some(w) => Some(Slot(toIdx[link.to], w))
  }

  /** The slots of one node, in neighbour iteration order. */
  function RowOf(links: seq<Link>, key: string, toIdx: map<NodeId, nat>): (r: seq<Slot>)
    requires forall l :: 0 <= l < |links| ==> links[l].to in toIdx
    ensures |r| <= |links|
  {
    if links == [] then []
    else
      var rest := RowOf(links[1..], key, toIdx);
      match LinkSlot(links[0], key, toIdx)
      case None => rest
      case Some(sl) => [sl] + rest
  }

  /** `toIdx` sends distinct ids to distinct indices. */
  predicate Injective(toIdx: map<NodeId, nat>) {
    forall a, b :: a in toIdx && b in toIdx && a != b ==> toIdx[a] != toIdx[b]
  }

  /** Every slot of a row comes from one of the row's neighbours: the one at index `l`. */
  lemma {:induction false} SlotSource(links: seq<Link>, key: string, toIdx: map<NodeId, nat>, j: nat) returns (l: nat)
    requires forall x :: 0 <= x < |links| ==> links[x].to in toIdx
    requires j < |RowOf(links, key, toIdx)|
    ensures l < |links| && LinkSlot(links[l], key, toIdx) == Some(RowOf(links, key, toIdx)[j])
    ensures RowOf(links, key, toIdx)[j].col == toIdx[links[l].to]
    decreases |links|
  {
    var tail := links[1..];
    var rest := RowOf(tail, key, toIdx);
    if LinkSlot(links[0], key, toIdx).Some? {
      if j == 0 {
        l := 0;
      } else {
        var l' := SlotSource(tail, key, toIdx, j - 1);
        assert tail[l'] == links[l' + 1];
        l := l' + 1;
      }
    } else {
      var l' := SlotSource(tail, key, toIdx, j);
      assert tail[l'] == links[l' + 1];
      l := l' + 1;
    }
  }

  /** Every neighbour that has some `key` value gets its slot in the row. */
  lemma {:induction false} RowOfComplete(links: seq<Link>, key: string, toIdx: map<NodeId, nat>, l: nat) returns (x: nat)
    requires forall y :: 0 <= y < |links| ==> links[y].to in toIdx
    requires l < |links| && LinkSlot(links[l], key, toIdx).Some?
    ensures x < |RowOf(links, key, toIdx)| && RowOf(links, key, toIdx)[x] == LinkSlot(links[l], key, toIdx).value
    decreases |links|
  {
    var tail := links[1..];
    if l == 0 {
      x := 0;
    } else {
      assert tail[l - 1] == links[l];
      var x' := RowOfComplete(tail, key, toIdx, l - 1);
      x := if LinkSlot(links[0], key, toIdx).Some? then x' + 1 else x';
    }
  }

  /** Within a row no neighbour index repeats. */
  lemma {:induction false} RowOfDistinctColumns(links: seq<Link>, key: string, toIdx: map<NodeId, nat>)
    requires forall l :: 0 <= l < |links| ==> links[l].to in toIdx
    requires Distinct(Targets(links))
    requires Injective(toIdx)
    ensures forall j, j' :: 0 <= j < j' < |RowOf(links, key, toIdx)| ==>
              RowOf(links, key, toIdx)[j].col != RowOf(links, key, toIdx)[j'].col
    decreases |links|
  {
    if links != [] {
      var tail := links[1..];
      assert Targets(tail) == Targets(links)[1..];
      RowOfDistinctColumns(tail, key, toIdx);
      var rest := RowOf(tail, key, toIdx);
      var r := RowOf(links, key, toIdx);
      if LinkSlot(links[0], key, toIdx).Some? {
        var head := LinkSlot(links[0], key, toIdx).value;
        assert r == [head] + rest;
        forall j | 0 <= j < |rest| ensures rest[j].col != head.col {
          var l := SlotSource(tail, key, toIdx, j);
          assert tail[l] == links[l + 1];
          assert Targets(links)[0] != Targets(links)[l + 1];
        }
        forall j, j' | 0 <= j < j' < |r| ensures r[j].col != r[j'].col {
          assert r[j'] == rest[j' - 1];
          if j > 0 {
            assert r[j] == rest[j - 1];
          }
        }
      } else {
        assert r == rest;
      }
    }
  }

  /** A neighbour none of whose parallel edges has the key gets no slot. */
  lemma {:induction false} KeylessNeighbourOmitted(links: seq<Link>, key: string, toIdx: map<NodeId, nat>, l: nat, j: nat)
    requires forall x :: 0 <= x < |links| ==> links[x].to in toIdx
    requires Distinct(Targets(links))
    requires Injective(toIdx)
    requires l < |links| && MinKey(links[l].edges, key).None?
    requires j < |RowOf(links, key, toIdx)|
    ensures RowOf(links, key, toIdx)[j].col != toIdx[links[l].to]
  {
    var l' := SlotSource(links, key, toIdx, j);
    assert l != l';
    assert Targets(links)[l] != Targets(links)[l'];
  }

  /** Concatenation of the rows, in node order. */
  function Concat(rows: seq<seq<Slot>>): seq<Slot> {
    if rows == [] then [] else Concat(rows[..|rows| - 1]) + rows[|rows| - 1]
  }

  /** The running `row_ptr`: 0, then the slot count after each node. */
  function Offsets(rows: seq<seq<Slot>>): (r: seq<nat>)
    ensures |r| == |rows| + 1 && r[0] == 0 && r[|rows|] == |Concat(rows)|
    ensures forall i, j :: 0 <= i <= j <= |rows| ==> r[i] <= r[j]
    ensures forall i :: 0 <= i < |rows| ==> r[i + 1] == r[i] + |rows[i]|
  {
    if rows == [] then [0]
    else
      var front := rows[..|rows| - 1];
      var r := Offsets(front);
      assert forall i :: 0 <= i < |front| ==> front[i] == rows[i];
      r + [r[|front|] + |rows[|rows| - 1]|]
  }

  /** Between consecutive offsets the concatenation holds exactly that row. */
  lemma {:induction false} OffsetsSlice(rows: seq<seq<Slot>>, i: nat)
    requires i < |rows|
    ensures Offsets(rows)[i] + |rows[i]| == Offsets(rows)[i + 1] <= |Concat(rows)|
    ensures Concat(rows)[Offsets(rows)[i]..Offsets(rows)[i + 1]] == rows[i]
    decreases |rows|
  {
    var front := rows[..|rows| - 1];
    var flat, last := Concat(front), rows[|rows| - 1];
    var off := Offsets(front);
    assert Concat(rows) == flat + last;
    assert Offsets(rows) == off + [off[|front|] + |last|];
    if i < |front| {
      OffsetsSlice(front, i);
      assert front[i] == rows[i];
      SliceOfPrefix(flat, last, off[i], off[i + 1]);
    } else {
      assert (flat + last)[|flat|..] == last;
    }
  }

  /** A slice that ends inside the first part of a concatenation lies in that part. */
  lemma {:induction false} SliceOfPrefix<T>(a: seq<T>, b: seq<T>, lo: nat, hi: nat)
    requires lo <= hi <= |a|
    ensures (a + b)[lo..hi] == a[lo..hi]
  {
  }

  predicate Adjacent(g: Graph, ns: seq<Node>, toIdx: map<NodeId, nat>) {
    forall i :: 0 <= i < |ns| ==> (ns[i].id in g.adj &&
      forall l :: 0 <= l < |g.adj[ns[i].id]| ==> g.adj[ns[i].id][l].to in toIdx)
  }

  /** One row per node, in node iteration order. */
  function Rows(g: Graph, ns: seq<Node>, key: string, toIdx: map<NodeId, nat>): (rows: seq<seq<Slot>>)
    requires Adjacent(g, ns, toIdx)
    ensures |rows| == |ns|
  {
    if ns == [] then []
    else
      assert Adjacent(g, ns[1..], toIdx) by {
        assert forall i :: 0 <= i < |ns[1..]| ==> ns[1..][i] == ns[i + 1];
      }
      [RowOf(g.adj[ns[0].id], key, toIdx)] + Rows(g, ns[1..], key, toIdx)
  }

  /** The `i`-th row is the row of the `i`-th node. */
  lemma {:induction false} RowsAt(g: Graph, ns: seq<Node>, key: string, toIdx: map<NodeId, nat>, i: nat)
    requires Adjacent(g, ns, toIdx) && i < |ns|
    ensures Rows(g, ns, key, toIdx)[i] == RowOf(g.adj[ns[i].id], key, toIdx)
    decreases |ns|
  {
    if i > 0 {
      assert forall x :: 0 <= x < |ns[1..]| ==> ns[1..][x] == ns[x + 1];
      RowsAt(g, ns[1..], key, toIdx, i - 1);
    }
  }

  /** What the conversion needs to run without a lookup error: every node has an adjacency entry and every
      neighbour is a node. */
  predicate Convertible(g: Graph) {
    Adjacent(g, g.nodes, ToIndex(g.nodes))
  }

  lemma {:induction false} WellFormedIsConvertible(g: Graph)
    requires WellFormed(g)
    ensures Convertible(g)
  {
    forall i | 0 <= i < |g.nodes|
      ensures g.nodes[i].id in g.adj &&
        forall l :: 0 <= l < |g.adj[g.nodes[i].id]| ==> g.adj[g.nodes[i].id][l].to in ToIndex(g.nodes)
    {
      assert Ids(g.nodes)[i] == g.nodes[i].id;
      assert WellFormedLinks(g, g.adj[g.nodes[i].id]);
    }
  }

  /** What well-formedness gives about the adjacency of the `i`-th node. */
  lemma {:induction false} NodeLinks(g: Graph, i: nat)
    requires WellFormed(g) && i < |g.nodes|
    ensures Convertible(g)
    ensures g.nodes[i].id in g.adj
    ensures Distinct(Targets(g.adj[g.nodes[i].id]))
    ensures NonNegativeLinks(g.adj[g.nodes[i].id])
  {
    WellFormedIsConvertible(g);
    assert Ids(g.nodes)[i] == g.nodes[i].id;
    assert WellFormedLinks(g, g.adj[g.nodes[i].id]);
  }

  /** The arrays and tables built from the rows of the nodes `ns`. */
  function Assemble(rows: seq<seq<Slot>>, ns: seq<Node>): Compact {
    var flat := Concat(rows);
    Compact(Csr(|ns|, Offsets(rows), seq(|flat|, j requires 0 <= j < |flat| => flat[j].col),
                seq(|flat|, j requires 0 <= j < |flat| => flat[j].weight)),
            seq(|ns|, i requires 0 <= i < |ns| => ns[i].x), seq(|ns|, i requires 0 <= i < |ns| => ns[i].y),
            ToIndex(ns), FromIndex(ns))
  }

  /** `prepare_graph_data(graph, weight)` */
  function Prepare(g: Graph, key: string): Compact
    requires Convertible(g)
  {
    Assemble(Rows(g, g.nodes, key, ToIndex(g.nodes)), g.nodes)
  }

  // ---------------------------------------------------------------------------------------
  // Properties of the conversion

  predicate SlotOk(sl: Slot, n: nat) {
    sl.col < n && sl.weight >= 0.0
  }

  predicate SlotsInRange(rows: seq<seq<Slot>>, n: nat) {
    forall i, j :: 0 <= i < |rows| && 0 <= j < |rows[i]| ==> SlotOk(rows[i][j], n)
  }

  lemma {:induction false} ConcatSlotsOk(rows: seq<seq<Slot>>, n: nat)
    requires forall i, j :: 0 <= i < |rows| && 0 <= j < |rows[i]| ==> SlotOk(rows[i][j], n)
    ensures forall j :: 0 <= j < |Concat(rows)| ==> SlotOk(Concat(rows)[j], n)
    decreases |rows|
  {
    if rows != [] {
      var front := rows[..|rows| - 1];
      assert forall i :: 0 <= i < |front| ==> front[i] == rows[i];
      ConcatSlotsOk(front, n);
    }
  }

  /** The assembled arrays have the CSR shape, given rows whose slots are in range. */
  lemma {:induction false} AssembleShape(rows: seq<seq<Slot>>, ns: seq<Node>)
    requires |rows| == |ns|
    requires SlotsInRange(rows, |ns|)
    ensures var c := Assemble(rows, ns).csr;
      && ValidCsr(c) && c.n == |ns| && c.rowPtr[0] == 0 && c.rowPtr[|ns|] == |c.cols| && NonNegativeWeights(c)
  {
    ConcatSlotsOk(rows, |ns|);
  }

  /** Slots `rowPtr[i] .. rowPtr[i+1]` of `c` hold exactly `row`, in order. */
  predicate RowIs(c: Csr, i: nat, row: seq<Slot>) {
    && i < c.n < |c.rowPtr| && c.rowPtr[i] <= c.rowPtr[i + 1] <= |c.cols| == |c.weights|
    && c.rowPtr[i + 1] - c.rowPtr[i] == |row|
    && forall j :: c.rowPtr[i] <= j < c.rowPtr[i + 1] ==>
         c.cols[j] == row[j - c.rowPtr[i]].col && c.weights[j] == row[j - c.rowPtr[i]].weight
  }

  /** Row `i` of the assembled arrays is exactly `rows[i]`. */
  lemma {:induction false} AssembleRow(rows: seq<seq<Slot>>, ns: seq<Node>, i: nat, row: seq<Slot>)
    requires |rows| == |ns| && i < |rows| && rows[i] == row
    ensures RowIs(Assemble(rows, ns).csr, i, row)
  {
    var off := Offsets(rows);
    var flat := Concat(rows);
    OffsetsSlice(rows, i);
    forall j | off[i] <= j < off[i + 1] ensures flat[j] == rows[i][j - off[i]] {
      assert flat[off[i]..off[i + 1]][j - off[i]] == flat[j];
    }
  }

  /** Slots of a row built from non-negative attributes and an index table into 0..n-1 are in range. */
  lemma {:induction false} RowOfSlotsOk(links: seq<Link>, key: string, toIdx: map<NodeId, nat>, n: nat)
    requires forall l :: 0 <= l < |links| ==> links[l].to in toIdx
    requires forall id :: id in toIdx ==> toIdx[id] < n
    requires forall l, k, a :: 0 <= l < |links| && 0 <= k < |links[l].edges| && a in links[l].edges[k].attrs ==>
               links[l].edges[k].attrs[a] >= 0.0
    ensures forall j :: 0 <= j < |RowOf(links, key, toIdx)| ==> SlotOk(RowOf(links, key, toIdx)[j], n)
  {
    var r := RowOf(links, key, toIdx);
    forall j | 0 <= j < |r| ensures SlotOk(r[j], n) {
      var l := SlotSource(links, key, toIdx, j);
      var es := links[l].edges;
      var x :| 0 <= x < |es| && KeyWeight(es[x], key) == MinKey(es, key);
    }
  }

  /** Every attribute on the connections out of the nodes is non-negative. */
  ghost predicate NonNegativeRows(g: Graph) {
    forall i :: 0 <= i < |g.nodes| && g.nodes[i].id in g.adj ==> NonNegativeLinks(g.adj[g.nodes[i].id])
  }

  lemma {:induction false} WellFormedIsNonNegative(g: Graph)
    requires WellFormed(g)
    ensures NonNegativeRows(g)
  {
    forall i | 0 <= i < |g.nodes| && g.nodes[i].id in g.adj ensures NonNegativeLinks(g.adj[g.nodes[i].id]) {
      NodeLinks(g, i);
    }
  }

  /** The rows of a convertible graph with non-negative attributes only hold in-range slots. */
  lemma {:induction false} RowsOk(g: Graph, key: string)
    requires Convertible(g) && NonNegativeRows(g)
    ensures SlotsInRange(Rows(g, g.nodes, key, ToIndex(g.nodes)), |g.nodes|)
  {
    var toIdx := ToIndex(g.nodes);
    var rows := Rows(g, g.nodes, key, toIdx);
    forall i | 0 <= i < |rows| ensures forall j :: 0 <= j < |rows[i]| ==> SlotOk(rows[i][j], |g.nodes|) {
      RowsAt(g, g.nodes, key, toIdx, i);
      RowOfSlotsOk(g.adj[g.nodes[i].id], key, toIdx, |g.nodes|);
    }
  }

  /** `row_ptr` has one more entry than there are nodes, starts at 0, never decreases and ends at the
      common length of `cols` and `weights`; every column is a node index; every weight is non-negative. */
  lemma {:induction false} PrepareShape(g: Graph, key: string)
    requires Convertible(g) && NonNegativeRows(g)
    ensures var c := Prepare(g, key).csr;
      && ValidCsr(c) && c.n == |g.nodes| && c.rowPtr[0] == 0 && c.rowPtr[|g.nodes|] == |c.cols| && NonNegativeWeights(c)
  {
    RowsOk(g, key);
    var rows := Rows(g, g.nodes, key, ToIndex(g.nodes));
    assert Prepare(g, key) == Assemble(rows, g.nodes);
    AssembleShape(rows, g.nodes);
  }

  /** The id-to-index table is injective on a graph whose node ids are distinct. */
  lemma {:induction false} ToIndexInjective(ns: seq<Node>)
    requires Distinct(Ids(ns))
    ensures Injective(ToIndex(ns))
  {
    var m := ToIndex(ns);
    forall a, b | a in m && b in m && a != b ensures m[a] != m[b] {
      assert ns[m[a]].id == a && ns[m[b]].id == b;
    }
  }

  lemma {:induction false} PrepareTables(g: Graph, key: string)
    requires Convertible(g)
    ensures Prepare(g, key).nodeToIdx == ToIndex(g.nodes)
    ensures Prepare(g, key).idxToNode == FromIndex(g.nodes)
    ensures |Prepare(g, key).xs| == |Prepare(g, key).ys| == |g.nodes|
    ensures forall i :: 0 <= i < |g.nodes| ==> Prepare(g, key).xs[i] == g.nodes[i].x && Prepare(g, key).ys[i] == g.nodes[i].y
  {
    assert Prepare(g, key) == Assemble(Rows(g, g.nodes, key, ToIndex(g.nodes)), g.nodes);
  }

  /** `node_to_idx` covers exactly the graph's nodes and `idx_to_node` exactly 0..num_nodes-1. */
  lemma {:induction false} PrepareIndexDomain(g: Graph, key: string)
    requires Convertible(g)
    ensures forall id :: id in Prepare(g, key).nodeToIdx <==> HasNode(g, id)
    ensures forall i: nat :: i in Prepare(g, key).idxToNode <==> i < |g.nodes|
  {
    PrepareTables(g, key);
  }

  /** `node_to_idx` and `idx_to_node` are mutually inverse over 0..num_nodes-1, in node iteration order. */
  lemma {:induction false} PrepareIndexInverse(g: Graph, key: string)
    requires Convertible(g) && Distinct(Ids(g.nodes))
    ensures forall i :: 0 <= i < |g.nodes| ==>
              Prepare(g, key).idxToNode[i] == g.nodes[i].id && Prepare(g, key).nodeToIdx[g.nodes[i].id] == i
    ensures forall id :: id in Prepare(g, key).nodeToIdx ==>
              Prepare(g, key).nodeToIdx[id] < |g.nodes| && Prepare(g, key).idxToNode[Prepare(g, key).nodeToIdx[id]] == id
  {
    PrepareTables(g, key);
    IndexTablesInverse(g.nodes);
  }

  /** Distinct node ids get distinct indices. */
  lemma {:induction false} PrepareIndexInjective(g: Graph, key: string)
    requires Convertible(g) && Distinct(Ids(g.nodes))
    ensures Injective(Prepare(g, key).nodeToIdx)
  {
    PrepareTables(g, key);
    ToIndexInjective(g.nodes);
  }

  lemma {:induction false} IndexTablesInverse(ns: seq<Node>)
    requires Distinct(Ids(ns))
    ensures forall i :: 0 <= i < |ns| ==> FromIndex(ns)[i] == ns[i].id && ToIndex(ns)[ns[i].id] == i
    ensures forall id :: id in ToIndex(ns) ==> ToIndex(ns)[id] < |ns| && FromIndex(ns)[ToIndex(ns)[id]] == id
  {
    ToIndexOfDistinct(ns);
  }

  /** With distinct ids, the `i`-th node's id maps back to `i`: no later duplicate overwrote it. */
  lemma {:induction false} ToIndexOfDistinct(ns: seq<Node>)
    requires Distinct(Ids(ns))
    ensures forall i :: 0 <= i < |ns| ==> ToIndex(ns)[ns[i].id] == i
  {
    forall i | 0 <= i < |ns| ensures ToIndex(ns)[ns[i].id] == i {
      ToIndexAt(ns, i);
    }
  }

  lemma {:induction false} ToIndexAt(ns: seq<Node>, i: nat)
    requires Distinct(Ids(ns)) && i < |ns|
    ensures ns[i].id in ToIndex(ns) && ToIndex(ns)[ns[i].id] == i
  {
    var ids := Ids(ns);
    assert ids[i] == ns[i].id;
    var j := ToIndex(ns)[ns[i].id];
    assert ids[j] == ids[i];
  }

  /** The coordinate arrays follow node iteration order. */
  lemma {:induction false} PrepareCoordinates(g: Graph, key: string)
    requires Convertible(g)
    ensures |Prepare(g, key).xs| == |Prepare(g, key).ys| == |g.nodes|
    ensures forall i :: 0 <= i < |g.nodes| ==> Prepare(g, key).xs[i] == g.nodes[i].x && Prepare(g, key).ys[i] == g.nodes[i].y
  {
    PrepareTables(g, key);
  }

  /** Row `i` of the converted arrays is the row of the `i`-th node. */
  lemma {:induction false} PrepareRowIs(g: Graph, key: string, i: nat)
    requires Convertible(g) && i < |g.nodes|
    ensures RowIs(Prepare(g, key).csr, i, RowOf(g.adj[g.nodes[i].id], key, ToIndex(g.nodes)))
  {
    var toIdx := ToIndex(g.nodes);
    var rows := Rows(g, g.nodes, key, toIdx);
    RowsAt(g, g.nodes, key, toIdx, i);
    AssembleRow(rows, g.nodes, i, rows[i]);
  }

  // Row facts for any arrays whose row `i` holds the row of the neighbour list `links`.

  lemma {:induction false} RowSlot(c: Csr, i: nat, links: seq<Link>, key: string, toIdx: map<NodeId, nat>, j: nat) returns (l: nat)
    requires forall x :: 0 <= x < |links| ==> links[x].to in toIdx
    requires RowIs(c, i, RowOf(links, key, toIdx)) && c.rowPtr[i] <= j < c.rowPtr[i + 1]
    ensures l < |links| && c.cols[j] == toIdx[links[l].to] && MinKey(links[l].edges, key) == Some(c.weights[j])
  {
    var row := RowOf(links, key, toIdx);
    l := SlotSource(links, key, toIdx, j - c.rowPtr[i]);
    assert c.cols[j] == row[j - c.rowPtr[i]].col;
  }

  lemma {:induction false} RowNeighbour(c: Csr, i: nat, links: seq<Link>, key: string, toIdx: map<NodeId, nat>, l: nat) returns (j: nat)
    requires forall x :: 0 <= x < |links| ==> links[x].to in toIdx
    requires RowIs(c, i, RowOf(links, key, toIdx))
    requires l < |links| && MinKey(links[l].edges, key).Some?
    ensures c.rowPtr[i] <= j < c.rowPtr[i + 1] && c.cols[j] == toIdx[links[l].to] &&
            c.weights[j] == MinKey(links[l].edges, key).value
  {
    var row := RowOf(links, key, toIdx);
    var x := RowOfComplete(links, key, toIdx, l);
    assert row[x] == Slot(toIdx[links[l].to], MinKey(links[l].edges, key).value);
    j := c.rowPtr[i] + x;
    assert c.cols[j] == row[x].col && c.weights[j] == row[x].weight;
  }

  lemma {:induction false} RowKeyless(c: Csr, i: nat, links: seq<Link>, key: string, toIdx: map<NodeId, nat>, l: nat)
    requires forall x :: 0 <= x < |links| ==> links[x].to in toIdx
    requires Distinct(Targets(links)) && Injective(toIdx)
    requires RowIs(c, i, RowOf(links, key, toIdx))
    requires l < |links| && MinKey(links[l].edges, key).None?
    ensures forall j :: c.rowPtr[i] <= j < c.rowPtr[i + 1] ==> c.cols[j] != toIdx[links[l].to]
  {
    forall j | c.rowPtr[i] <= j < c.rowPtr[i + 1] ensures c.cols[j] != toIdx[links[l].to] {
      KeylessNeighbourOmitted(links, key, toIdx, l, j - c.rowPtr[i]);
    }
  }

  lemma {:induction false} RowDistinct(c: Csr, i: nat, links: seq<Link>, key: string, toIdx: map<NodeId, nat>)
    requires forall x :: 0 <= x < |links| ==> links[x].to in toIdx
    requires Distinct(Targets(links)) && Injective(toIdx)
    requires RowIs(c, i, RowOf(links, key, toIdx))
    ensures forall j, j' :: c.rowPtr[i] <= j < j' < c.rowPtr[i + 1] ==> c.cols[j] != c.cols[j']
  {
    var row := RowOf(links, key, toIdx);
    RowOfDistinctColumns(links, key, toIdx);
    var lo := c.rowPtr[i];
    forall j, j' | lo <= j < j' < c.rowPtr[i + 1] ensures c.cols[j] != c.cols[j'] {
      assert c.cols[j] == row[j - lo].col && c.cols[j'] == row[j' - lo].col;
    }
  }

  /** Each slot of row `i` is a connection of the graph from the `i`-th node to the node its column names,
      and its weight is the minimum of the key over that connection's parallel edges. */
  lemma {:induction false} PrepareSlot(g: Graph, key: string, i: nat, j: nat)
    requires Convertible(g) && i < |g.nodes| && Distinct(Targets(g.adj[g.nodes[i].id]))
    requires Prepare(g, key).csr.rowPtr[i] <= j < Prepare(g, key).csr.rowPtr[i + 1]
    ensures Prepare(g, key).csr.cols[j] < |g.nodes|
    ensures var c := Prepare(g, key).csr; var u := g.nodes[i].id; var v := g.nodes[c.cols[j]].id;
      && EdgesBetween(g, u, v).Some?
      && MinKey(EdgesBetween(g, u, v).value, key) == Some(c.weights[j])
  {
    PrepareRowIs(g, key, i);
    var toIdx := ToIndex(g.nodes);
    var links := g.adj[g.nodes[i].id];
    var l := RowSlot(Prepare(g, key).csr, i, links, key, toIdx, j);
    FindLinkAt(links, l);
  }

  /** A neighbour some of whose parallel edges carry the key has a slot in row `i` holding the minimum. */
  lemma {:induction false} PrepareNeighbour(g: Graph, key: string, i: nat, l: nat)
    requires Convertible(g) && i < |g.nodes|
    requires l < |g.adj[g.nodes[i].id]| && MinKey(g.adj[g.nodes[i].id][l].edges, key).Some?
    ensures var c := Prepare(g, key); var link := g.adj[g.nodes[i].id][l];
      && link.to in c.nodeToIdx
      && exists j :: c.csr.rowPtr[i] <= j < c.csr.rowPtr[i + 1] && c.csr.cols[j] == c.nodeToIdx[link.to] &&
                     c.csr.weights[j] == MinKey(link.edges, key).value
  {
    PrepareRowIs(g, key, i);
    PrepareTables(g, key);
    var j := RowNeighbour(Prepare(g, key).csr, i, g.adj[g.nodes[i].id], key, ToIndex(g.nodes), l);
  }

  /** A neighbour none of whose parallel edges carries the key has no slot in row `i`. */
  lemma {:induction false} PrepareKeylessNeighbour(g: Graph, key: string, i: nat, l: nat)
    requires Convertible(g) && i < |g.nodes| && Distinct(Ids(g.nodes)) && Distinct(Targets(g.adj[g.nodes[i].id]))
    requires l < |g.adj[g.nodes[i].id]| && MinKey(g.adj[g.nodes[i].id][l].edges, key).None?
    ensures var c := Prepare(g, key); var link := g.adj[g.nodes[i].id][l];
      && link.to in c.nodeToIdx
      && forall j :: c.csr.rowPtr[i] <= j < c.csr.rowPtr[i + 1] ==> c.csr.cols[j] != c.nodeToIdx[link.to]
  {
    PrepareRowIs(g, key, i);
    PrepareTables(g, key);
    ToIndexInjective(g.nodes);
    RowKeyless(Prepare(g, key).csr, i, g.adj[g.nodes[i].id], key, ToIndex(g.nodes), l);
  }

  /** No neighbour index repeats within a row. */
  lemma {:induction false} PrepareRowDistinct(g: Graph, key: string, i: nat)
    requires Convertible(g) && i < |g.nodes| && Distinct(Ids(g.nodes)) && Distinct(Targets(g.adj[g.nodes[i].id]))
    ensures var c := Prepare(g, key).csr;
      forall j, j' :: c.rowPtr[i] <= j < j' < c.rowPtr[i + 1] ==> c.cols[j] != c.cols[j']
  {
    PrepareRowIs(g, key, i);
    ToIndexInjective(g.nodes);
    RowDistinct(Prepare(g, key).csr, i, g.adj[g.nodes[i].id], key, ToIndex(g.nodes));
  }
}
