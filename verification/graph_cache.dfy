/**
 * The module-level conversion cache of the dispatcher: compact arrays stored per graph identity, built with
 * whichever weight key the first request carried, and emptied as a whole.
 */
module GraphCache {
  import opened RoadGraph
  import opened Csr

  /** `_graph_cache`: graph identity (`id(graph)`) to the converted arrays. */
  type Cache = map<nat, Compact>

  /** The entry a request for graph `gid` uses, and the cache after it: an entry already stored is reused whatever
      the key and the graph now are; otherwise the graph is converted with this request's key and stored. */
  function Lookup(cache: Cache, gid: nat, g: Graph, key: string): (r: (Cache, Compact))
    requires gid !in cache ==> Convertible(g)
    ensures gid in r.0 && r.0[gid] == r.1
    ensures gid in cache ==> r.0 == cache
    ensures gid !in cache ==> r.1 == Prepare(g, key)
    ensures forall id :: id != gid ==> (id in r.0 <==> id in cache)
    ensures forall id :: id != gid && id in cache ==> r.0[id] == cache[id]
  {
    if gid in cache then (cache, cache[gid]) else var c := Prepare(g, key); (cache[gid := c], c)
  }

  /** `clear_cache()` */
  function Clear(): (r: Cache)
    ensures forall id :: id !in r
  {
    map[]
  }

  /** The key of the first request wins: a later request for the same graph identity gets the arrays built with
      the first key, even with another key or after the graph behind that identity changed. */
  lemma {:induction false} FirstKeyWins(cache: Cache, gid: nat, g1: Graph, k1: string, g2: Graph, k2: string)
    requires Convertible(g1) && gid !in cache
    ensures Lookup(Lookup(cache, gid, g1, k1).0, gid, g2, k2).1 == Prepare(g1, k1)
  {
  }

  /** After the cache is cleared, the next request converts the current graph with its own key. */
  lemma {:induction false} ClearRebuilds(gid: nat, g: Graph, key: string)
    requires Convertible(g)
    ensures Lookup(Clear(), gid, g, key).1 == Prepare(g, key)
    ensures Lookup(Clear(), gid, g, key).0 == map[gid := Prepare(g, key)]
  {
  }

  /** Every entry was built from the graph that now has its identity, with some key. */
  ghost predicate Faithful(cache: Cache, graphOf: map<nat, Graph>) {
    forall id :: id in cache ==> id in graphOf && Convertible(graphOf[id]) && exists k :: cache[id] == Prepare(graphOf[id], k)
  }

  /** A request for a graph under its own identity keeps the cache faithful. */
  lemma {:induction false} LookupKeepsFaithful(cache: Cache, graphOf: map<nat, Graph>, gid: nat, key: string)
    requires Faithful(cache, graphOf) && gid in graphOf && Convertible(graphOf[gid])
    ensures Faithful(Lookup(cache, gid, graphOf[gid], key).0, graphOf)
  {
    var g := graphOf[gid];
    var c' := Lookup(cache, gid, g, key).0;
    forall id | id in c'
      ensures id in graphOf && Convertible(graphOf[id]) && exists k :: c'[id] == Prepare(graphOf[id], k)
    {
      if id == gid && gid !in cache {
        assert c'[id] == Prepare(g, key);
      }
    }
  }

  /** A faithful cache stays faithful only while the graphs behind its identities stay the same: once a graph
      changes in place, its stored entry may describe the old graph, and clearing the cache restores
      faithfulness for any graphs. */
  lemma {:induction false} ClearIsFaithful(graphOf: map<nat, Graph>)
    ensures Faithful(Clear(), graphOf)
  {
  }

  /** What the accelerated search needs of an entry: arrays it can index safely with non-negative weights, and
      an id table whose indices are in range and translate back to the same ids. */
  predicate EntryOk(c: Compact) {
    && ValidCsr(c.csr)
    && NonNegativeWeights(c.csr)
    && forall id :: id in c.nodeToIdx ==>
         c.nodeToIdx[id] < c.csr.n && c.nodeToIdx[id] in c.idxToNode && c.idxToNode[c.nodeToIdx[id]] == id
  }

  predicate CacheOk(cache: Cache) {
    forall id :: id in cache ==> EntryOk(cache[id])
  }

  /** The conversion of a well-formed graph is a usable entry. */
  lemma {:induction false} PreparedEntryOk(g: Graph, key: string)
    requires WellFormed(g)
    ensures Convertible(g)
    ensures EntryOk(Prepare(g, key))
  {
    WellFormedIsConvertible(g);
    WellFormedIsNonNegative(g);
    PrepareShape(g, key);
    PrepareIndexInverse(g, key);
  }

  /** A request for a well-formed graph keeps every entry usable. */
  lemma {:induction false} LookupKeepsOk(cache: Cache, gid: nat, g: Graph, key: string)
    requires CacheOk(cache) && WellFormed(g)
    ensures Convertible(g)
    ensures CacheOk(Lookup(cache, gid, g, key).0)
  {
    PreparedEntryOk(g, key);
  }
}
