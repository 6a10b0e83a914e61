/** The graph-building half of `generate_bipartite_graph`: the surviving
    interaction records become a directed taxon/metabolite graph, hidden
    names are removed, environmental sources are added, metabolites are
    pruned around a target taxon and isolated nodes are dropped. */
module BipartiteBuilder {

  import opened Wrappers
  import opened Graphs
  import opened ExchangeFilter

  /** The inorganic compounds the command line hides unless asked to show
      them. */
  const DefaultHiddenMetabolites: seq<string> := [
    "h", "h2", "btn", "ca2", "cl", "co2", "cu2", "fe2", "fe3", "k", "no2", "no3",
    "so4", "thm", "zn2", "pi", "h2o", "h2o2", "o2", "cobalt2", "nh4", "hco3", "mg2", "mn2"
  ]

  /** The keyword arguments of `generate_bipartite_graph`; `None` stands for
      an argument left at its default. */
  datatype Options = Options(
    hideTaxa: Option<seq<string>>,
    hideMetabolites: Option<seq<string>>,
    fluxCutoff: FluxCutoff,
    targetTaxon: Option<string>,
    environmentalSources: Option<seq<string>>,
    relabel: map<string, string>,
    keepMetabolites: Option<seq<string>>)

  predicate Hidden(o: Options, n: string)
  {
    n in OrEmpty(o.hideTaxa) || n in OrEmpty(o.hideMetabolites)
  }

  /** Whether the record's metabolite is added with `bipartite=1`: it is not
      hidden, and either no source list is given, it is a source, or the
      record involves the target taxon. */
  predicate TagsMetabolite(o: Options, x: Interaction)
  {
    && x.metabolite !in OrEmpty(o.hideMetabolites)
    && (|| o.environmentalSources.None?
        || x.metabolite in o.environmentalSources.value
        || (o.targetTaxon.Some? && (x.taxon == o.targetTaxon.value || x.metabolite == o.targetTaxon.value)))
  }

  /** The edge a record contributes: taxon to metabolite for an export,
      metabolite to taxon for an import, none for any other direction. */
  function EdgeOf(x: Interaction): (r: Option<Edge>)
    ensures x.direction == "export" ==> r == Some((x.taxon, x.metabolite))
    ensures x.direction == "import" ==> r == Some((x.metabolite, x.taxon))
    ensures x.direction != "export" && x.direction != "import" ==> r == None
  {
    if x.direction == "export" then Some((x.taxon, x.metabolite))
    else if x.direction == "import" then Some((x.metabolite, x.taxon))
    else None
  }

  /** The set of edges the records contribute; a repeated pair is one edge. */
  function RecordEdges(rs: seq<Interaction>): (r: set<Edge>)
    ensures forall e :: e in r <==> exists k :: 0 <= k < |rs| && EdgeOf(rs[k]) == Some(e)
  {
    if rs == [] then {}
    else
      var rest := RecordEdges(rs[1..]);
      assert forall k :: 1 <= k < |rs| ==> rs[k] == rs[1..][k - 1];
      (if EdgeOf(rs[0]).Some? then {EdgeOf(rs[0]).value} else {}) + rest
  }

  /** The names a record mentions. */
  predicate Mentions(rs: seq<Interaction>, n: string)
  {
    exists k :: 0 <= k < |rs| && (rs[k].taxon == n || rs[k].metabolite == n)
  }

  /** A name some record has as its metabolite. */
  predicate IsMetaboliteOf(rs: seq<Interaction>, n: string)
  {
    exists k :: 0 <= k < |rs| && rs[k].metabolite == n
  }

  /** One pass of the loop body: tag the taxon and perhaps the metabolite,
      then add the edge of the record. */
  function AddRecord(g: Graph, x: Interaction, o: Options): (r: Graph)
    ensures Valid(g) ==> Valid(r)
    ensures r.edges == g.edges + (if EdgeOf(x).Some? then {EdgeOf(x).value} else {})
    ensures forall n :: n in g.nodes ==> n in r.nodes
    ensures forall n :: n in r.nodes ==> n in g.nodes || n == x.taxon || n == x.metabolite
    ensures forall n :: n in r.tag && r.tag[n] == MetaboliteTag ==>
              (n in g.tag && g.tag[n] == MetaboliteTag) || n == x.metabolite
  {
    var g1 := if x.taxon !in OrEmpty(o.hideTaxa) then WithNode(g, x.taxon, TaxonTag) else g;
    var g2 := if TagsMetabolite(o, x) then WithNode(g1, x.metabolite, MetaboliteTag) else g1;
    match EdgeOf(x)
    case Some(e) => WithEdge(g2, e.0, e.1)
    case None => g2
  }

  /** The loop over the surviving records, continued from g. */
  function AddRecords(g: Graph, rs: seq<Interaction>, o: Options): (r: Graph)
    ensures Valid(g) ==> Valid(r)
    ensures r.edges == g.edges + RecordEdges(rs)
    ensures forall n :: n in g.nodes ==> n in r.nodes
    decreases |rs|
  {
    if rs == [] then g
    else
      var r := AddRecords(AddRecord(g, rs[0], o), rs[1..], o);
      assert RecordEdges(rs) == (if EdgeOf(rs[0]).Some? then {EdgeOf(rs[0]).value} else {}) + RecordEdges(rs[1..]);
      r
  }

  /** Every node the records add is a name they mention, and every node they
      tag as a metabolite is the metabolite of one of them. */
  lemma {:induction false} AddRecordsProvenance(g: Graph, rs: seq<Interaction>, o: Options)
    ensures var r := AddRecords(g, rs, o);
      && (forall n :: n in r.nodes ==> n in g.nodes || Mentions(rs, n))
      && (forall n :: n in r.tag && r.tag[n] == MetaboliteTag ==>
            (n in g.tag && g.tag[n] == MetaboliteTag) || IsMetaboliteOf(rs, n))
    decreases |rs|
  {
    if rs != [] {
      var g1 := AddRecord(g, rs[0], o);
      AddRecordsProvenance(g1, rs[1..], o);
      assert forall k :: 1 <= k < |rs| ==> rs[k] == rs[1..][k - 1];
      assert Mentions(rs, rs[0].taxon) && Mentions(rs, rs[0].metabolite);
      assert IsMetaboliteOf(rs, rs[0].metabolite);
      forall n | Mentions(rs[1..], n) ensures Mentions(rs, n) {
        var k :| 0 <= k < |rs[1..]| && (rs[1..][k].taxon == n || rs[1..][k].metabolite == n);
        assert rs[k + 1] == rs[1..][k];
      }
      forall n | IsMetaboliteOf(rs[1..], n) ensures IsMetaboliteOf(rs, n) {
        var k :| 0 <= k < |rs[1..]| && rs[1..][k].metabolite == n;
        assert rs[k + 1] == rs[1..][k];
      }
    }
  }

  /** `for source in environmental_carbon_sources or []`: a source that is
      not yet a node is added with `bipartite=1`; one that is stays as it is. */
  function AddSources(g: Graph, sources: seq<string>): (r: Graph)
    requires Valid(g)
    ensures Valid(r)
    ensures r.edges == g.edges
    ensures forall n :: n in r.nodes <==> n in g.nodes || n in sources
    ensures forall n :: n in g.tag ==> n in r.tag && r.tag[n] == g.tag[n]
    ensures forall n :: n in r.tag ==> n in g.tag || (n in sources && r.tag[n] == MetaboliteTag)
    decreases |sources|
  {
    if sources == [] then g
    else
      var g1 := if sources[0] !in g.nodes then WithNode(g, sources[0], MetaboliteTag) else g;
      AddSources(g1, sources[1..])
  }

  /** The test at lines 160-167: a node tagged as a metabolite that is not a
      source, has no edge to the target and is not kept. */
  predicate Prunable(g: Graph, n: string, sources: seq<string>, target: string, keep: seq<string>)
  {
    && n in g.tag
    && n !in sources
    && g.tag[n] == MetaboliteTag
    && (n, target) !in g.edges
    && n !in keep
  }

  /** The pruning loop over the snapshot `ns` of the node list, each test
      made on the graph as the earlier removals left it. Nodes that are
      untagged, not metabolites, sources or kept are never removed. */
  function PruneFrom(g: Graph, ns: seq<string>, sources: seq<string>, target: string, keep: seq<string>): (r: Graph)
    requires Valid(g)
    ensures Valid(r)
    ensures forall n :: n in r.nodes ==> n in g.nodes
    ensures forall n :: n in g.nodes && n !in ns ==> n in r.nodes
    ensures forall n :: n in g.nodes && n !in g.tag ==> n in r.nodes
    ensures forall n :: n in g.nodes && (n in sources || n in keep || (n in g.tag && g.tag[n] != MetaboliteTag)) ==> n in r.nodes
    ensures forall n :: n in r.tag <==> n in g.tag && n in r.nodes
    ensures forall n :: n in r.tag ==> r.tag[n] == g.tag[n]
    ensures forall e :: e in r.edges <==> e in g.edges && e.0 in r.nodes && e.1 in r.nodes
    decreases |ns|
  {
    if ns == [] then g
    else
      var g1 := if Prunable(g, ns[0], sources, target, keep) then WithoutNode(g, ns[0]) else g;
      PruneFrom(g1, ns[1..], sources, target, keep)
  }

  /** After the pruning loop, a node of the snapshot that is tagged as a
      metabolite, is no source and is not kept still stands only if it has an
      edge to the target; this needs the target itself never to be pruned. */
  lemma {:induction false} PruneKeepsFeeders(g: Graph, ns: seq<string>, sources: seq<string>, target: string, keep: seq<string>)
    requires Valid(g)
    requires !(target in g.tag && g.tag[target] == MetaboliteTag)
    ensures var r := PruneFrom(g, ns, sources, target, keep);
      forall n :: n in ns && n in r.nodes && n in g.tag && g.tag[n] == MetaboliteTag && n !in sources && n !in keep
        ==> (n, target) in r.edges
    decreases |ns|
  {
    if ns != [] {
      var n0 := ns[0];
      var g1 := if Prunable(g, n0, sources, target, keep) then WithoutNode(g, n0) else g;
      var r := PruneFrom(g1, ns[1..], sources, target, keep);
      assert r == PruneFrom(g, ns, sources, target, keep);
      PruneKeepsFeeders(g1, ns[1..], sources, target, keep);
      if n0 in r.nodes && n0 in g.tag && g.tag[n0] == MetaboliteTag && n0 !in sources && n0 !in keep {
        assert n0 in g1.nodes;
        assert (n0, target) in g1.edges;
        assert target in g1.nodes;
        assert target in r.nodes;
      }
      forall n | n in ns[1..] && n != n0 && n in r.nodes && n in g.tag && g.tag[n] == MetaboliteTag
        && n !in sources && n !in keep
        ensures (n, target) in r.edges
      {
        assert n in g1.tag;
      }
    }
  }

  /** Lines 131-156 over the surviving records: the graph before the
      pruning around the target. */
  function Prepared(records: seq<Interaction>, o: Options): (r: Graph)
    ensures Valid(r)
  {
    var g0 := AddRecords(Empty, records, o);
    var g1 := WithoutNodes(WithoutNodes(g0, OrEmpty(o.hideTaxa)), OrEmpty(o.hideMetabolites));
    AddSources(g1, OrEmpty(o.environmentalSources))
  }

  /** A name that no record has as its metabolite and that is no source is
      not tagged as a metabolite before the pruning. */
  lemma PreparedMetabolites(records: seq<Interaction>, o: Options, n: string)
    requires n !in OrEmpty(o.environmentalSources)
    requires !IsMetaboliteOf(records, n)
    ensures !(n in Prepared(records, o).tag && Prepared(records, o).tag[n] == MetaboliteTag)
  {
    AddRecordsProvenance(Empty, records, o);
  }

  /** Lines 131-170 over the surviving records. */
  function Build(records: seq<Interaction>, o: Options): Graph
  {
    var g2 := Prepared(records, o);
    var g3 := if o.targetTaxon.Some?
              then PruneFrom(g2, g2.nodes, OrEmpty(o.environmentalSources), o.targetTaxon.value, OrEmpty(o.keepMetabolites))
              else g2;
    WithoutNodes(g3, Isolates(g3))
  }

  /** The whole of `generate_bipartite_graph` on the lines of the exchanges
      table: read, rank, cut off, build. */
  function Generate(lines: seq<string>, o: Options, parseFloat: string -> Option<real>): Result<Graph, EngineError>
  {
    match ParseTable(lines, o.relabel, parseFloat)
    case Failure(e) => Failure(e)
    case Success(records) =>
      match ApplyCutoff(SortByFlux(records), o.fluxCutoff)
      case Failure(e) => Failure(e)
      case Success(kept) => Success(Build(kept, o))
  }

  /** The graph the engine returns is a well-formed graph in which every
      node has an edge; no hidden name is a node, even one that was an edge
      end or a source; its edges are exactly the record edges between its
      nodes; and each node is a name from the records or a source. */
  lemma BuildProperties(records: seq<Interaction>, o: Options)
    ensures var r := Build(records, o);
      && Valid(r)
      && (forall n :: n in r.nodes ==> !Isolated(r, n))
      && (forall n :: Hidden(o, n) ==> n !in r.nodes)
      && (forall e :: e in r.edges <==> e in RecordEdges(records) && e.0 in r.nodes && e.1 in r.nodes)
      && (forall n :: n in r.nodes ==> Mentions(records, n) || n in OrEmpty(o.environmentalSources))
  {
    var sources := OrEmpty(o.environmentalSources);
    var g0 := AddRecords(Empty, records, o);
    AddRecordsProvenance(Empty, records, o);
    var h := WithoutNodes(g0, OrEmpty(o.hideTaxa));
    var g1 := WithoutNodes(h, OrEmpty(o.hideMetabolites));
    var g2 := AddSources(g1, sources);
    var g3 := if o.targetTaxon.Some?
              then PruneFrom(g2, g2.nodes, sources, o.targetTaxon.value, OrEmpty(o.keepMetabolites))
              else g2;
    WithoutIsolatesHasNoIsolates(g3);
    var r := WithoutNodes(g3, Isolates(g3));
    assert r == Build(records, o);
    forall n | Hidden(o, n) ensures n !in r.nodes {
      assert n !in g1.nodes;
      assert Isolated(g3, n);
    }
    forall e | e in RecordEdges(records) && e.0 in r.nodes && e.1 in r.nodes
      ensures e in r.edges
    {
      assert e in g0.edges;
      assert !Hidden(o, e.0) && !Hidden(o, e.1);
      assert e in g2.edges;
    }
  }

  /** Pruning a graph around a target that is not tagged as a metabolite,
      then dropping isolated nodes, leaves metabolites only where they are
      sources, kept, or feed the target. */
  lemma PrunedKeepsFeeders(g: Graph, sources: seq<string>, target: string, keep: seq<string>)
    requires Valid(g)
    requires !(target in g.tag && g.tag[target] == MetaboliteTag)
    ensures var g1 := PruneFrom(g, g.nodes, sources, target, keep);
      var r := WithoutNodes(g1, Isolates(g1));
      forall n :: n in r.nodes && n in r.tag && r.tag[n] == MetaboliteTag ==>
        n in sources || n in keep || (n, target) in r.edges
  {
    var g1 := PruneFrom(g, g.nodes, sources, target, keep);
    PruneKeepsFeeders(g, g.nodes, sources, target, keep);
    WithoutIsolatesHasNoIsolates(g1);
    var r := WithoutNodes(g1, Isolates(g1));
    forall n | n in r.nodes && n in r.tag && r.tag[n] == MetaboliteTag && n !in sources && n !in keep
      ensures (n, target) in r.edges
    {
      assert (n, target) in g1.edges;
      assert !Isolated(g1, target);
    }
  }

  /** With a target taxon, each metabolite-tagged node of the result is an
      environmental source, a kept metabolite, or has an edge to the target.
      The loop tests nodes one at a time, so this holds when the target is
      not itself pruned: it is no source and no record's metabolite. */
  lemma BuildPrunesAroundTarget(records: seq<Interaction>, o: Options)
    requires o.targetTaxon.Some?
    requires o.targetTaxon.value !in OrEmpty(o.environmentalSources)
    requires !IsMetaboliteOf(records, o.targetTaxon.value)
    ensures var r := Build(records, o);
      forall n :: n in r.nodes && n in r.tag && r.tag[n] == MetaboliteTag ==>
        || n in OrEmpty(o.environmentalSources)
        || n in OrEmpty(o.keepMetabolites)
        || (n, o.targetTaxon.value) in r.edges
  {
    var target := o.targetTaxon.value;
    PreparedMetabolites(records, o, target);
    PrunedKeepsFeeders(Prepared(records, o), OrEmpty(o.environmentalSources), target, OrEmpty(o.keepMetabolites));
  }

  // ---------------------------------------------------------------------
  // The engine on the graph object

  /** The loop at lines 126-147: each surviving record tags its taxon,
      perhaps its metabolite, and adds its edge. */
  method AddInteractions(g: DiGraph, records: seq<Interaction>, o: Options)
    modifies g
    ensures g.Value() == AddRecords(old(g.Value()), records, o)
  {
    var i := 0;
    while i < |records|
      invariant 0 <= i <= |records|
      invariant AddRecords(g.Value(), records[i..], o) == AddRecords(old(g.Value()), records, o)
    {
      var x := records[i];
      assert records[i..][0] == x && records[i..][1..] == records[i + 1..];
      ghost var before := g.Value();
      if x.taxon !in OrEmpty(o.hideTaxa) {
        g.AddNode(x.taxon, TaxonTag);
      }
      if x.metabolite !in OrEmpty(o.hideMetabolites) {
        if o.environmentalSources.None? || x.metabolite in o.environmentalSources.value {
          g.AddNode(x.metabolite, MetaboliteTag);
        } else if o.targetTaxon.Some? && (x.taxon == o.targetTaxon.value || x.metabolite == o.targetTaxon.value) {
          g.AddNode(x.metabolite, MetaboliteTag);
        }
      }
      if x.direction == "export" {
        g.AddEdge(x.taxon, x.metabolite);
      } else if x.direction == "import" {
        g.AddEdge(x.metabolite, x.taxon);
      }
      assert g.Value() == AddRecord(before, x, o);
      i := i + 1;
    }
  }

  /** Lines 154-156: sources that are not nodes yet are added as metabolites. */
  method AddSourceNodes(g: DiGraph, sources: seq<string>)
    requires Valid(g.Value())
    modifies g
    ensures g.Value() == AddSources(old(g.Value()), sources)
  {
    var i := 0;
    while i < |sources|
      invariant 0 <= i <= |sources|
      invariant Valid(g.Value())
      invariant AddSources(g.Value(), sources[i..]) == AddSources(old(g.Value()), sources)
    {
      assert sources[i..][0] == sources[i] && sources[i..][1..] == sources[i + 1..];
      if sources[i] !in g.nodes {
        g.AddNode(sources[i], MetaboliteTag);
      }
      i := i + 1;
    }
  }

  /** Lines 161-168, for one node of the snapshot: removed when it is a
      metabolite that is no source, has no edge to the target and is not
      kept. */
  method PruneNode(g: DiGraph, node: string, sources: seq<string>, target: string, keep: seq<string>)
    modifies g
    ensures g.Value() == if Prunable(old(g.Value()), node, sources, target, keep)
                         then WithoutNode(old(g.Value()), node) else old(g.Value())
  {
    if node in g.tag && node !in sources && g.tag[node] == MetaboliteTag {
      var linked := g.HasEdge(node, target);
      if !linked && node !in keep {
        g.RemoveNode(node);
      }
    }
  }

  /** Lines 159-168: walk a snapshot of the node list and remove each
      metabolite that is not a source, has no edge to the target and is not
      kept. */
  method PruneAroundTarget(g: DiGraph, sources: seq<string>, target: string, keep: seq<string>)
    requires Valid(g.Value())
    modifies g
    ensures g.Value() == PruneFrom(old(g.Value()), old(g.Value()).nodes, sources, target, keep)
  {
    var snapshot := g.nodes;
    for i := 0 to |snapshot|
      invariant Valid(g.Value())
      invariant PruneFrom(g.Value(), snapshot[i..], sources, target, keep)
             == PruneFrom(old(g.Value()), snapshot, sources, target, keep)
    {
      assert snapshot[i..][0] == snapshot[i] && snapshot[i..][1..] == snapshot[i + 1..];
      PruneNode(g, snapshot[i], sources, target, keep);
    }
  }

  /** `generate_bipartite_graph` on the lines of the exchanges table (the
      JSON dump is left out): a new graph object holding `Generate`'s graph,
      or the error `Generate` reports. */
  method GenerateBipartiteGraph(lines: seq<string>, o: Options, parseFloat: string -> Option<real>)
    returns (r: Result<DiGraph, EngineError>)
    ensures r.Success? <==> Generate(lines, o, parseFloat).Success?
    ensures r.Success? ==> fresh(r.value) && r.value.Value() == Generate(lines, o, parseFloat).value
    ensures r.Failure? ==> r.error == Generate(lines, o, parseFloat).error
  {
    var g := new DiGraph();
    var read := ReadInteractions(lines, o.relabel, parseFloat);
    if read.Failure? {
      return Failure(read.error);
    }
    var cut := ApplyCutoff(SortByFlux(read.value), o.fluxCutoff);
    if cut.Failure? {
      return Failure(cut.error);
    }
    AddInteractions(g, cut.value, o);
    if o.hideTaxa.Some? {
      g.RemoveNodesFrom(o.hideTaxa.value);
    }
    if o.hideMetabolites.Some? {
      g.RemoveNodesFrom(o.hideMetabolites.value);
    }
    AddSourceNodes(g, OrEmpty(o.environmentalSources));
    if o.targetTaxon.Some? {
      PruneAroundTarget(g, OrEmpty(o.environmentalSources), o.targetTaxon.value, OrEmpty(o.keepMetabolites));
    }
    g.RemoveNodesFrom(Isolates(g.Value()));
    return Success(g);
  }

  // ---------------------------------------------------------------------
  // The two rules the command line applies before calling the engine

  /** The default inorganic compounds not in `keep`, in list order. */
  function DefaultsNotKept(defaults: seq<string>, keep: seq<string>): (r: seq<string>)
    ensures forall m :: m in r <==> m in defaults && m !in keep
  {
    if defaults == [] then []
    else (if defaults[0] !in keep then [defaults[0]] else []) + DefaultsNotKept(defaults[1..], keep)
  }

  /** The hide list handed to the engine: the user's list, followed (unless
      inorganic compounds are shown) by the default ones that are not kept. */
  function HiddenMetabolites(userHidden: seq<string>, keep: seq<string>, showInorganic: bool): (r: seq<string>)
    ensures userHidden <= r
    ensures forall m :: m in r <==> m in userHidden || (!showInorganic && m in DefaultHiddenMetabolites && m !in keep)
  {
    if showInorganic then userHidden else userHidden + DefaultsNotKept(DefaultHiddenMetabolites, keep)
  }

  /** The cutoff argument: absent, a keyword, or text read as a number;
      other text raises. */
  function CutoffArgument(text: Option<string>, parseFloat: string -> Option<real>): (r: Result<FluxCutoff, EngineError>)
    ensures text.None? ==> r == Success(NoCutoff)
    ensures text.Some? && (text.value == "top20" || text.value == "top10") ==> r == Success(Keyword(text.value))
    ensures text.Some? && text.value != "top20" && text.value != "top10" && parseFloat(text.value).Some? ==>
              r == Success(AtLeast(parseFloat(text.value).value))
    ensures r.Failure? <==> text.Some? && text.value != "top20" && text.value != "top10" && parseFloat(text.value).None?
    ensures r.Failure? ==> r.error == CutoffNotNumeric(text.value)
  {
    if text.None? then Success(NoCutoff)
    else if text.value == "top20" || text.value == "top10" then Success(Keyword(text.value))
    else
      match parseFloat(text.value)
      case Some(f) => Success(AtLeast(f))
      case None => Failure(CutoffNotNumeric(text.value))
  }

  /** A cutoff the command line accepts is never rejected by the engine as an
      unknown keyword. */
  lemma CutoffArgumentAccepted(text: Option<string>, parseFloat: string -> Option<real>, ranked: seq<Interaction>)
    requires CutoffArgument(text, parseFloat).Success?
    ensures ranked != [] ==> ApplyCutoff(ranked, CutoffArgument(text, parseFloat).value).Success?
  {
  }
}
