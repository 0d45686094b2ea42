/**
  The projection of `build_connected_graph` onto the pyvis network (app.py
  lines 97-113) and the entry point's guard (lines 196-200). The `Network`
  object keeps the nodes and edges added to it, in order of addition.
 */
module Render {

  import opened Wrappers
  import opened Text
  import opened Extract
  import opened Batch
  import opened Overlap

  const BaseSize: nat := 15
  const SizePerEdge: nat := 3
  const LabelWords: nat := 4

  /** A `net.add_node` call: id, label, size and the metadata shown on hover. */
  datatype VisualNode = VisualNode(
    id: nat,
    caption: string,
    size: nat,
    title: Option<string>,
    authors: string,
    year: string,
    abstractText: string
  )

  /** A `net.add_edge` call: the two endpoints and the value drawn from the weight. */
  datatype VisualEdge = VisualEdge(source: nat, target: nat, value: nat)

  /** `15 + degree * 3`. */
  function NodeSize(degree: nat): (r: nat)
    ensures r >= BaseSize
    ensures r == BaseSize <==> degree == 0
    ensures (r - BaseSize) % SizePerEdge == 0
  {
    BaseSize + degree * SizePerEdge
  }

  /** A bigger degree never gives a smaller node. */
  lemma NodeSizeMonotonic(d1: nat, d2: nat)
    requires d1 <= d2
    ensures NodeSize(d1) <= NodeSize(d2)
  {
  }

  /** `str(row['title'])`: a missing title prints as "None". */
  function TitleText(title: Option<string>): string {
    match title
    case None => "None"
    case Some(t) => t
  }

  /** `" ".join(title.split()[:4])`: the label consists of the first (at most) four tokens of the title. */
  function Label(title: Option<string>): (r: string)
    ensures Split(r) == Take(Split(TitleText(title)), LabelWords)
    ensures |Split(r)| <= LabelWords
    ensures r == Join(" ", Split(r))
  {
    var words := Take(Split(TitleText(title)), LabelWords);
    SplitWords(TitleText(title));
    SplitJoin(words);
    Join(" ", words)
  }

  /** The node app.py builds for record i. */
  function NodeFor(records: seq<Record>, g: Edges, i: nat): VisualNode
    requires i < |records|
  {
    var r := records[i];
    VisualNode(i, Label(r.title), NodeSize(Degree(g, i)), r.title, r.fullAuthors, r.year, r.abstractText)
  }

  /** The edges app.py adds for the graph edges in `keys`: one per edge, its value the weight. */
  function EdgesFor(g: Edges, keys: set<(nat, nat)>): set<VisualEdge> {
    set k | k in keys && k in g :: VisualEdge(k.0, k.1, g[k])
  }

  /** The edges app.py adds for the whole graph. */
  function VisualEdges(g: Edges): set<VisualEdge> {
    EdgesFor(g, g.Keys)
  }

  function ElementsOf(edges: seq<VisualEdge>): set<VisualEdge> {
    set e | e in edges
  }

  lemma EdgesForStep(g: Edges, keys: set<(nat, nat)>, k: (nat, nat))
    requires k in g
    ensures EdgesFor(g, keys + {k}) == EdgesFor(g, keys) + {VisualEdge(k.0, k.1, g[k])}
  {
  }

  lemma ElementsOfAppend(edges: seq<VisualEdge>, e: VisualEdge)
    ensures ElementsOf(edges + [e]) == ElementsOf(edges) + {e}
  {
  }

  /** A node is drawn at the base size exactly when no other paper shares a reference with it. */
  lemma IsolatedNodeSize(records: seq<Record>, i: nat)
    requires i < |records|
    ensures var g := OverlapEdges(RefSets(records));
      NodeFor(records, g, i).size == BaseSize <==>
        forall w :: 0 <= w < |records| && w != i ==> records[i].refs * records[w].refs == {}
  {
    DegreeZeroIff(RefSets(records), i);
  }

  /** Every edge of the graph is drawn once, with its weight as value. */
  lemma VisualEdgesSpec(g: Edges)
    ensures forall e :: e in VisualEdges(g) ==> (e.source, e.target) in g && e.value == g[(e.source, e.target)]
    ensures forall k :: k in g ==> VisualEdge(k.0, k.1, g[k]) in VisualEdges(g)
  {
  }

  /** The pyvis network: the nodes and edges added so far. */
  class Network {
    var nodes: seq<VisualNode>
    var edges: seq<VisualEdge>

    constructor ()
      ensures nodes == [] && edges == []
    {
      nodes := [];
      edges := [];
    }

    method AddNode(n: VisualNode)
      modifies this
      ensures nodes == old(nodes) + [n] && edges == old(edges)
    {
      nodes := nodes + [n];
    }

    method AddEdge(e: VisualEdge)
      modifies this
      ensures edges == old(edges) + [e] && nodes == old(nodes)
    {
      edges := edges + [e];
    }
  }

  /** The loop over `df.iterrows()` calling `net.add_node`. */
  method AddRecordNodes(net: Network, records: seq<Record>, g: Edges)
    requires net.nodes == [] && net.edges == []
    modifies net
    ensures net.edges == []
    ensures |net.nodes| == |records|
    ensures forall i :: 0 <= i < |records| ==> net.nodes[i] == NodeFor(records, g, i)
  {
    var i := 0;
    while i < |records|
      invariant 0 <= i <= |records|
      invariant |net.nodes| == i && net.edges == []
      invariant forall k :: 0 <= k < i ==> net.nodes[k] == NodeFor(records, g, k)
    {
      var row := records[i];
      var incident := Incident(g, i);
      var degree := if incident != {} then |incident| else 0;
      var caption := Join(" ", Take(Split(TitleText(row.title)), LabelWords));
      net.AddNode(VisualNode(i, caption, BaseSize + degree * SizePerEdge, row.title, row.fullAuthors, row.year, row.abstractText));
      i := i + 1;
    }
  }

  /** The loop over `G.edges(data=True)` calling `net.add_edge`. */
  method AddGraphEdges(net: Network, g: Edges)
    requires net.edges == []
    modifies net
    ensures net.nodes == old(net.nodes)
    ensures ElementsOf(net.edges) == VisualEdges(g) && |net.edges| == |g|
  {
    var remaining, done := g.Keys, {};
    while remaining != {}
      invariant remaining + done == g.Keys && remaining !! done
      invariant net.nodes == old(net.nodes)
      invariant ElementsOf(net.edges) == EdgesFor(g, done)
      invariant |net.edges| == |done|
      decreases remaining
    {
      var k :| k in remaining;
      ghost var before := net.edges;
      net.AddEdge(VisualEdge(k.0, k.1, g[k]));
      ElementsOfAppend(before, VisualEdge(k.0, k.1, g[k]));
      EdgesForStep(g, done, k);
      remaining, done := remaining - {k}, done + {k};
    }
  }

  /** The edge loop, the node loop and the network they fill (styling left out). */
  method BuildConnectedGraph(records: seq<Record>) returns (g: Edges, net: Network)
    ensures g == OverlapEdges(RefSets(records))
    ensures fresh(net)
    ensures |net.nodes| == |records|
    ensures forall i :: 0 <= i < |records| ==> net.nodes[i] == NodeFor(records, g, i)
    ensures ElementsOf(net.edges) == VisualEdges(g) && |net.edges| == |g|
  {
    g := BuildEdges(RefSets(records));
    net := new Network();

    AddRecordNodes(net, records, g);
    AddGraphEdges(net, g);
  }

  /**
    The entry point: extract the records of the listing and, unless there are
    none, build the graph and its network.
   */
  method Run(listing: seq<DirEntry>) returns (records: seq<Record>, net: Network?)
    ensures records == Records(listing)
    ensures net == null <==> records == []
    ensures net != null ==> fresh(net) && |net.nodes| == |records|
    ensures net != null ==> forall i :: 0 <= i < |records| ==>
      net.nodes[i] == NodeFor(records, OverlapEdges(RefSets(records)), i)
    ensures net != null ==> ElementsOf(net.edges) == VisualEdges(OverlapEdges(RefSets(records)))
  {
    records := ExtractAll(listing);
    net := null;
    if records != [] {
      var g;
      g, net := BuildConnectedGraph(records);
    }
  }
}
