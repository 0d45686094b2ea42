/**
  The overlap graph of `build_connected_graph` (app.py lines 89-95 and the
  degree query of line 100). The networkx `Graph` is modelled by its edge map:
  a key `(i, j)` with `i < j` is an edge and its value the edge's weight; a
  node is in the graph exactly when some edge touches it.
 */
module Overlap {

  import opened Extract

  type Edges = map<(nat, nat), nat>

  /** The reference sets of the records, in record order (`df.iloc[i]['refs']`). */
  function RefSets(records: seq<Record>): (r: seq<set<string>>)
    ensures |r| == |records|
    ensures forall i :: 0 <= i < |records| ==> r[i] == records[i].refs
  {
    seq(|records|, i requires 0 <= i < |records| => records[i].refs)
  }

  /** The pairwise specification: one edge per pair i < j that shares a reference, weighted by how many. */
  function OverlapEdges(refs: seq<set<string>>): Edges {
    map a: nat, b: nat | a < b < |refs| && refs[a] * refs[b] != {} :: (a, b) := |refs[a] * refs[b]|
  }

  /** Pair (a, b) comes before pair (i, j) in the loop's enumeration order. */
  predicate Before(a: nat, b: nat, i: nat, j: nat) {
    a < i || (a == i && b < j)
  }

  /** `g` holds exactly the edges of the pairs handled before pair (i, j), with their weights. */
  ghost predicate EdgesBefore(refs: seq<set<string>>, g: Edges, i: nat, j: nat) {
    && (forall k :: k in g ==>
          k.0 < k.1 < |refs| && Before(k.0, k.1, i, j) && g[k] == |refs[k.0] * refs[k.1]| && g[k] > 0)
    && (forall a: nat, b: nat :: a < b < |refs| && Before(a, b, i, j) && refs[a] * refs[b] != {} ==> (a, b) in g)
  }

  lemma AllPairsDone(refs: seq<set<string>>, g: Edges)
    requires EdgesBefore(refs, g, |refs|, 0)
    ensures g == OverlapEdges(refs)
  {
    var spec := OverlapEdges(refs);
    forall k | k in g
      ensures k in spec && spec[k] == g[k]
    {
      assert refs[k.0] * refs[k.1] != {};
    }
    forall k | k in spec
      ensures k in g
    {
      assert Before(k.0, k.1, |refs|, 0);
    }
  }

  /** Handling pair (i, j) adds its edge when the two papers share a reference, and nothing else. */
  lemma PairStep(refs: seq<set<string>>, g: Edges, i: nat, j: nat)
    requires i < j < |refs| && EdgesBefore(refs, g, i, j)
    ensures var shared := refs[i] * refs[j];
      EdgesBefore(refs, if |shared| > 0 then g[(i, j) := |shared|] else g, i, j + 1)
  {
    var shared := refs[i] * refs[j];
    var g' := if |shared| > 0 then g[(i, j) := |shared|] else g;
    forall a: nat, b: nat | a < b < |refs| && Before(a, b, i, j + 1) && refs[a] * refs[b] != {}
      ensures (a, b) in g'
    {
      if !Before(a, b, i, j) {
        assert a == i && b == j;
      }
    }
  }

  /** A finished row i is the start of row i + 1, and row i starts at j = i + 1. */
  lemma RowStep(refs: seq<set<string>>, g: Edges, i: nat)
    requires i < |refs|
    ensures EdgesBefore(refs, g, i, 0) ==> EdgesBefore(refs, g, i, i + 1)
    ensures EdgesBefore(refs, g, i, |refs|) ==> EdgesBefore(refs, g, i + 1, 0)
  {
  }

  /** The inner `j` loop for paper i: adds the edges from i to every later paper it shares a reference with. */
  method AddRowEdges(refs: seq<set<string>>, g0: Edges, i: nat) returns (g: Edges)
    requires i < |refs| && EdgesBefore(refs, g0, i, 0)
    ensures EdgesBefore(refs, g, i + 1, 0)
  {
    g := g0;
    RowStep(refs, g, i);
    var n := |refs|;
    var j := i + 1;
    while j < n
      invariant i < j <= n
      invariant EdgesBefore(refs, g, i, j)
    {
      PairStep(refs, g, i, j);
      var shared := refs[i] * refs[j];
      if |shared| > 0 {
        g := g[(i, j) := |shared|];
      }
      j := j + 1;
    }
    RowStep(refs, g, i);
  }

  /** The nested `i`/`j` loop calling `G.add_edge`. */
  method BuildEdges(refs: seq<set<string>>) returns (g: Edges)
    ensures g == OverlapEdges(refs)
  {
    g := map[];
    var i := 0;
    while i < |refs|
      invariant i <= |refs|
      invariant EdgesBefore(refs, g, i, 0)
    {
      g := AddRowEdges(refs, g, i);
      i := i + 1;
    }
    AllPairsDone(refs, g);
  }

  /** The edges incident to node v. */
  function Incident(g: Edges, v: nat): set<(nat, nat)> {
    set k | k in g && (k.0 == v || k.1 == v)
  }

  /** `G.degree(v) if v in G else 0`: the fallback agrees with counting the incident edges. */
  function Degree(g: Edges, v: nat): (d: nat)
    ensures d == |Incident(g, v)|
  {
    if Incident(g, v) != {} then |Incident(g, v)| else 0
  }

  /** The other papers that share at least one reference with paper v. */
  ghost function Neighbours(refs: seq<set<string>>, v: nat): set<nat>
    requires v < |refs|
  {
    set w: nat | w < |refs| && w != v && refs[v] * refs[w] != {}
  }

  /** The key under which the unordered pair {v, w} is stored. */
  function PairKey(v: nat, w: nat): (nat, nat) {
    if w < v then (w, v) else (v, w)
  }

  /** Edges: exactly the sharing pairs i < j, weighted by the size of the intersection, so at least 1. */
  lemma EdgesSpec(refs: seq<set<string>>)
    ensures forall a: nat, b: nat :: (a, b) in OverlapEdges(refs) <==> a < b < |refs| && refs[a] * refs[b] != {}
    ensures forall k :: k in OverlapEdges(refs) ==>
      k.0 < k.1 < |refs| && OverlapEdges(refs)[k] == |refs[k.0] * refs[k.1]| >= 1
  {
  }

  /**
    The graph is undirected and order-independent: every unordered pair of
    distinct papers has one key, present exactly when they share a reference,
    whose weight is the size of the intersection taken either way round.
   */
  lemma EdgesSymmetric(refs: seq<set<string>>, v: nat, w: nat)
    requires v < |refs| && w < |refs| && v != w
    ensures PairKey(v, w) == PairKey(w, v)
    ensures PairKey(v, w) in OverlapEdges(refs) <==> refs[v] * refs[w] != {}
    ensures PairKey(v, w) in OverlapEdges(refs) ==>
      OverlapEdges(refs)[PairKey(v, w)] == |refs[v] * refs[w]| == |refs[w] * refs[v]|
  {
    assert refs[v] * refs[w] == refs[w] * refs[v];
  }

  /** A paper without references has no incident edge. */
  lemma NoRefsIsolated(refs: seq<set<string>>, v: nat)
    requires v < |refs| && refs[v] == {}
    ensures Incident(OverlapEdges(refs), v) == {}
    ensures Degree(OverlapEdges(refs), v) == 0
  {
    var g := OverlapEdges(refs);
    forall k | k in g
      ensures k.0 != v && k.1 != v
    {
      assert refs[k.0] * refs[k.1] != {};
    }
  }

  lemma {:induction false} PairImageSize(v: nat, s: set<nat>)
    requires v !in s
    ensures |set w | w in s :: PairKey(v, w)| == |s|
    decreases |s|
  {
    if s != {} {
      var w :| w in s;
      var s' := s - {w};
      PairImageSize(v, s');
      var image' := set x | x in s' :: PairKey(v, x);
      assert (set x | x in s :: PairKey(v, x)) == image' + {PairKey(v, w)};
      assert PairKey(v, w) !in image';
    }
  }

  /** The degree of a paper is the number of other papers it shares a reference with. */
  lemma DegreeIsNeighbourCount(refs: seq<set<string>>, v: nat)
    requires v < |refs|
    ensures Degree(OverlapEdges(refs), v) == |Neighbours(refs, v)|
  {
    var g := OverlapEdges(refs);
    var ns := Neighbours(refs, v);
    var keys := set w | w in ns :: PairKey(v, w);
    forall k | k in Incident(g, v)
      ensures k in keys
    {
      var w := if k.0 == v then k.1 else k.0;
      assert refs[v] * refs[w] == refs[k.0] * refs[k.1];
      assert w in ns && PairKey(v, w) == k;
    }
    forall w | w in ns
      ensures PairKey(v, w) in Incident(g, v)
    {
      EdgesSymmetric(refs, v, w);
    }
    assert Incident(g, v) == keys;
    PairImageSize(v, ns);
  }

  /** A paper has degree 0 exactly when it shares no reference with any other paper. */
  lemma DegreeZeroIff(refs: seq<set<string>>, v: nat)
    requires v < |refs|
    ensures Degree(OverlapEdges(refs), v) == 0 <==>
      forall w :: 0 <= w < |refs| && w != v ==> refs[v] * refs[w] == {}
  {
    DegreeIsNeighbourCount(refs, v);
    var ns := Neighbours(refs, v);
    if ns == {} {
      forall w | 0 <= w < |refs| && w != v
        ensures refs[v] * refs[w] == {}
      {
        assert w !in ns;
      }
    } else {
      var w :| w in ns;
      assert refs[v] * refs[w] != {};
    }
  }
}
