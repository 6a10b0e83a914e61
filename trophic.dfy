/** The graph logic of `plot_trophic_interactions`: which nodes the plot
    focuses on, the donor edges added from environmental sources, the
    default tag for untagged nodes, and the split of the edges into
    highlighted and ordinary ones. Drawing, layout and colours are not
    modelled. */
module TrophicFocus {

  import opened Wrappers
  import opened Graphs
  import opened Strings

  /** `NetworkXError` for a node that is not in the graph, and the
      `KeyError('bipartite')` of a node without a tag. */
  datatype FocusError = NodeNotFound(node: string) | MissingTag

  /** The arguments of the plot that choose what it shows. */
  datatype FocusOptions = FocusOptions(
    environmentalSources: Option<seq<string>>,
    highlightCompounds: Option<seq<string>>,
    targetTaxon: Option<string>,
    targetCompound: Option<string>)

  function Nodes(g: Graph): set<string>
  {
    set n | n in g.nodes
  }

  /** The successors of the nodes of s. */
  function Step(g: Graph, s: set<string>): set<string>
  {
    set e | e in g.edges && e.0 in s :: e.1
  }

  /** The nodes reached from s in at most k steps along edges. */
  function Within(g: Graph, s: set<string>, k: nat): set<string>
  {
    if k == 0 then s else s + Step(g, Within(g, s, k - 1))
  }

  /** A path along directed edges, its first node w[0]. */
  predicate IsWalk(g: Graph, w: seq<string>)
  {
    |w| >= 1 && forall i :: 0 <= i < |w| - 1 ==> (w[i], w[i + 1]) in g.edges
  }

  /** `Within` is reachability: n is within k steps of s exactly when some
      walk of at most k edges leads from s to n. */
  lemma {:induction false} WithinIsReachable(g: Graph, s: set<string>, k: nat, n: string)
    ensures n in Within(g, s, k) <==> exists w :: IsWalk(g, w) && |w| <= k + 1 && w[0] in s && w[|w| - 1] == n
    decreases k
  {
    if n in Within(g, s, k) {
      if n in s {
        assert IsWalk(g, [n]);
      } else {
        var e :| e in g.edges && e.0 in Within(g, s, k - 1) && e.1 == n;
        WithinIsReachable(g, s, k - 1, e.0);
        var w :| IsWalk(g, w) && |w| <= k && w[0] in s && w[|w| - 1] == e.0;
        var w' := w + [n];
        assert forall i :: 0 <= i < |w| ==> w'[i] == w[i];
        assert IsWalk(g, w');
      }
    }
    if exists w :: IsWalk(g, w) && |w| <= k + 1 && w[0] in s && w[|w| - 1] == n {
      var w :| IsWalk(g, w) && |w| <= k + 1 && w[0] in s && w[|w| - 1] == n;
      if |w| > 1 {
        var m := w[|w| - 2];
        var w' := w[..|w| - 1];
        assert IsWalk(g, w');
        WithinIsReachable(g, s, k - 1, m);
        assert (m, n) in g.edges;
      }
    }
  }

  /** Lines 252-265: the target compound, its successors, theirs, and theirs
      again. */
  function CompoundFocus(g: Graph, tc: string): set<string>
  {
    var direct := Step(g, {tc}) + {tc};
    var indirect := Step(g, direct);
    var extended := Step(g, indirect);
    direct + indirect + extended
  }

  lemma StepUnion(g: Graph, a: set<string>, b: set<string>)
    ensures Step(g, a + b) == Step(g, a) + Step(g, b)
  {
  }

  /** One more step from s: s and the successors of what was reached. */
  lemma WithinNext(g: Graph, s: set<string>, k: nat, before: set<string>)
    requires Within(g, s, k) == before
    ensures Within(g, s, k + 1) == s + Step(g, before)
  {
  }

  /** The nodes within two steps of tc: tc, its successors and theirs. */
  lemma WithinTwo(g: Graph, tc: string)
    ensures Within(g, {tc}, 2) == {tc} + Step(g, {tc}) + Step(g, Step(g, {tc}))
  {
    var s1 := Step(g, {tc});
    WithinNext(g, {tc}, 0, {tc});
    WithinNext(g, {tc}, 1, {tc} + s1);
    StepUnion(g, {tc}, s1);
  }

  /** The unions both sides are made of, with the rounds of successors
      held abstract. */
  lemma RoundsAgree(tc: set<string>, s1: set<string>, s2: set<string>, s3: set<string>,
                    direct: set<string>, indirect: set<string>, extended: set<string>)
    requires direct == s1 + tc && indirect == s2 + s1 && extended == s3 + s2
    ensures direct + indirect + extended == tc + s1 + s2 + s3
  {
  }

  /** The three rounds of successors are the nodes within three steps. */
  lemma CompoundFocusIsWithin(g: Graph, tc: string)
    ensures CompoundFocus(g, tc) == Within(g, {tc}, 3)
  {
    var s1 := Step(g, {tc});
    var s2 := Step(g, s1);
    var s3 := Step(g, s2);
    var direct := s1 + {tc};
    WithinTwo(g, tc);
    WithinNext(g, {tc}, 2, {tc} + s1 + s2);
    StepUnion(g, {tc} + s1, s2);
    StepUnion(g, {tc}, s1);
    StepUnion(g, s1, {tc});
    StepUnion(g, s1, s2);
    RoundsAgree({tc}, s1, s2, s3, direct, Step(g, direct), Step(g, Step(g, direct)));
  }

  /** The compound focus is everything within three steps of the target
      compound. */
  lemma CompoundFocusWithinThree(g: Graph, tc: string)
    ensures CompoundFocus(g, tc) == Within(g, {tc}, 3)
    ensures forall n :: n in CompoundFocus(g, tc) <==>
      exists w :: IsWalk(g, w) && |w| <= 4 && w[0] == tc && w[|w| - 1] == n
  {
    CompoundFocusIsWithin(g, tc);
    forall n ensures n in CompoundFocus(g, tc) <==>
      exists w :: IsWalk(g, w) && |w| <= 4 && w[0] == tc && w[|w| - 1] == n
    {
      WithinIsReachable(g, {tc}, 3, n);
    }
  }

  /** Lines 240-246: each highlighted compound must be a node and its
      successors must carry a tag; the first compound that fails decides the
      error. */
  function HighlightError(g: Graph, hl: seq<string>): (r: Option<FocusError>)
    ensures r.None? <==> forall c :: c in hl ==> c in g.nodes && Step(g, {c}) <= g.tag.Keys
    ensures r.Some? && r.value.NodeNotFound? ==> r.value.node in hl && r.value.node !in g.nodes
  {
    if hl == [] then None
    else if hl[0] !in g.nodes then Some(NodeNotFound(hl[0]))
    else if !(Step(g, {hl[0]}) <= g.tag.Keys) then Some(MissingTag)
    else HighlightError(g, hl[1..])
  }

  /** Lines 271-275: the neighbours of the target taxon in either direction
      that are tagged as metabolites. */
  function TaxonCompounds(g: Graph, tt: string): set<string>
    requires UndirectedNeighbours(g, tt) <= g.tag.Keys
  {
    set n | n in UndirectedNeighbours(g, tt) && g.tag[n] == MetaboliteTag
  }

  /** Lines 276-281: the successors of those compounds tagged as taxa. */
  function SpeciesOfCompounds(g: Graph, compounds: set<string>): set<string>
    requires Step(g, compounds) <= g.tag.Keys
  {
    set n | n in Step(g, compounds) && g.tag[n] == TaxonTag
  }

  /** Lines 238-295: the focus node set, or the first error raised while
      computing it. An empty union means every node. */
  function FocusNodes(g: Graph, o: FocusOptions): Result<set<string>, FocusError>
  {
    var hl := OrEmpty(o.highlightCompounds);
    var hlErr := HighlightError(g, hl);
    if hlErr.Some? then Failure(hlErr.value)
    else if o.targetCompound.Some? && o.targetCompound.value !in g.nodes then
      Failure(NodeNotFound(o.targetCompound.value))
    else if o.targetTaxon.Some? && o.targetTaxon.value !in g.nodes then
      Failure(NodeNotFound(o.targetTaxon.value))
    else if o.targetTaxon.Some? && !(UndirectedNeighbours(g, o.targetTaxon.value) <= g.tag.Keys) then
      Failure(MissingTag)
    else
      var compounds := if o.targetTaxon.Some? then TaxonCompounds(g, o.targetTaxon.value) else {};
      if !(Step(g, compounds) <= g.tag.Keys) then Failure(MissingTag)
      else
        var fromCompound := if o.targetCompound.Some? then CompoundFocus(g, o.targetCompound.value) else {};
        var species := SpeciesOfCompounds(g, compounds);
        var s := fromCompound + compounds + species + (set c | c in hl);
        Success(if s == {} then Nodes(g) else s)
  }

  /** Lines 301-307: with a non-empty source list, every edge of the full
      graph from a source to a node tagged as a taxon; the tag of the head of
      each edge leaving a source is read, so an untagged one raises. */
  function DonorEdges(g: Graph, sources: seq<string>): Result<set<Edge>, FocusError>
  {
    if sources == [] then Success({})
    else if exists e :: e in g.edges && e.0 in sources && e.1 !in g.tag then Failure(MissingTag)
    else Success(set e | e in g.edges && e.0 in sources && g.tag[e.1] == TaxonTag)
  }

  /** The focus set and the donor edges, or the first error. */
  function FocusPlan(g: Graph, o: FocusOptions): Result<(set<string>, set<Edge>), FocusError>
  {
    match FocusNodes(g, o)
    case Failure(e) => Failure(e)
    case Success(s) =>
      match DonorEdges(g, OrEmpty(o.environmentalSources))
      case Failure(e) => Failure(e)
      case Success(d) => Success((s, d))
  }

  /** The nodes of s, in order. */
  function Keep(ns: seq<string>, s: set<string>): (r: seq<string>)
    ensures forall n :: n in r <==> n in ns && n in s
    ensures Distinct(ns) ==> Distinct(r)
  {
    if ns == [] then []
    else
      assert Distinct(ns) ==> ns[0] !in ns[1..] && Distinct(ns[1..]);
      (if ns[0] in s then [ns[0]] else []) + Keep(ns[1..], s)
  }

  /** `G.subgraph(s)`: the nodes of s with their tags and the edges between
      them. */
  function Induced(g: Graph, s: set<string>): (r: Graph)
    requires Valid(g)
    ensures Valid(r)
    ensures forall n :: n in r.nodes <==> n in g.nodes && n in s
    ensures forall e :: e in r.edges <==> e in g.edges && e.0 in s && e.1 in s
  {
    Graph(Keep(g.nodes, s), map n | n in g.tag && n in s :: g.tag[n], set e | e in g.edges && e.0 in s && e.1 in s)
  }

  /** What the plot draws from: the induced subgraph plus the donor edges,
      every node tagged, a node keeping its tag only if it was tagged and in
      the focus set (nodes brought in by donor edges get tag 1, taxa
      included). */
  ghost predicate ExtendedSubgraph(x: Graph, g: Graph, s: set<string>, d: set<Edge>)
  {
    && Distinct(x.nodes)
    && (forall n :: n in x.nodes <==> (n in g.nodes && n in s) || (exists e :: e in d && (e.0 == n || e.1 == n)))
    && x.edges == (set e | e in g.edges && e.0 in s && e.1 in s) + d
    && (forall n :: n in x.tag <==> n in x.nodes)
    && (forall n :: n in x.tag ==> x.tag[n] == if n in s && n in g.tag then g.tag[n] else MetaboliteTag)
  }

  /** Lines 326-335: the edges touching a highlighted compound and the
      others; together they are the edges, and no edge is in both. */
  function SplitEdges(edges: set<Edge>, hl: seq<string>): (r: (set<Edge>, set<Edge>))
    ensures r.0 * r.1 == {} && r.0 + r.1 == edges
    ensures forall e :: e in r.0 ==> e.0 in hl || e.1 in hl
    ensures forall e :: e in r.1 ==> e.0 !in hl && e.1 !in hl
  {
    (set e | e in edges && (e.0 in hl || e.1 in hl), set e | e in edges && e.0 !in hl && e.1 !in hl)
  }

  /** `edge_subgraph`: the nodes are the ends of the chosen edges. */
  function EdgeEnds(edges: set<Edge>): (r: set<string>)
    ensures forall n :: n in r <==> exists e :: e in edges && (e.0 == n || e.1 == n)
  {
    (set e | e in edges :: e.0) + (set e | e in edges :: e.1)
  }

  /** A failed focus names a node that is missing only when the node was
      asked for; a successful one found every node asked for and picks nodes
      of the graph, all of them when nothing was selected. */
  lemma FocusNodesChecks(g: Graph, o: FocusOptions)
    requires Valid(g)
    ensures var r := FocusNodes(g, o);
      && (r.Failure? && r.error.NodeNotFound? ==>
            && r.error.node !in g.nodes
            && (r.error.node in OrEmpty(o.highlightCompounds)
                || o.targetCompound == Some(r.error.node)
                || o.targetTaxon == Some(r.error.node)))
      && (r.Success? ==>
            && (forall c :: c in OrEmpty(o.highlightCompounds) ==> c in g.nodes)
            && (o.targetCompound.Some? ==> o.targetCompound.value in r.value)
            && (o.targetTaxon.Some? ==> o.targetTaxon.value in g.nodes)
            && r.value <= Nodes(g)
            && (r.value == {} ==> g.nodes == []))
  {
    var r := FocusNodes(g, o);
    if r.Success? {
      if o.targetCompound.Some? {
        assert o.targetCompound.value in CompoundFocus(g, o.targetCompound.value);
      }
      if g.nodes != [] {
        assert g.nodes[0] in Nodes(g);
      }
    }
  }

  /** Lines 311-313: every node of the extended subgraph without a tag gets
      tag 1. */
  method TagUntagged(x: DiGraph)
    requires Valid(x.Value())
    modifies x
    ensures x.nodes == old(x.nodes) && x.edges == old(x.edges)
    ensures forall n :: n in x.tag <==> n in x.nodes
    ensures forall n :: n in x.tag ==> x.tag[n] == if n in old(x.tag) then old(x.tag)[n] else MetaboliteTag
  {
    var i := 0;
    while i < |x.nodes|
      invariant 0 <= i <= |x.nodes|
      invariant x.nodes == old(x.nodes) && x.edges == old(x.edges)
      invariant forall n :: n in x.tag <==> n in old(x.tag) || n in x.nodes[..i]
      invariant forall n :: n in x.tag ==> x.tag[n] == if n in old(x.tag) then old(x.tag)[n] else MetaboliteTag
    {
      var node := x.nodes[i];
      if node !in x.tag {
        x.tag := x.tag[node := MetaboliteTag];
      }
      assert x.nodes[..i + 1] == x.nodes[..i] + [node];
      i := i + 1;
    }
    assert x.nodes[..i] == x.nodes;
  }

  /** Lines 238-313: the focus set, the induced subgraph copied into a new
      graph, the donor edges added to it and the missing tags filled in; or
      the first error. */
  method ExtendedFocus(g: DiGraph, o: FocusOptions) returns (r: Result<DiGraph, FocusError>)
    requires Valid(g.Value())
    ensures r.Failure? <==> FocusPlan(g.Value(), o).Failure?
    ensures r.Failure? ==> r.error == FocusPlan(g.Value(), o).error
    ensures r.Success? ==> fresh(r.value)
    ensures r.Success? ==>
      ExtendedSubgraph(r.value.Value(), g.Value(), FocusPlan(g.Value(), o).value.0, FocusPlan(g.Value(), o).value.1)
  {
    var full := g.Value();
    var focus := FocusNodes(full, o);
    if focus.Failure? {
      return Failure(focus.error);
    }
    var x := new DiGraph.Copy(Induced(full, focus.value));
    var donors := DonorEdges(full, OrEmpty(o.environmentalSources));
    if donors.Failure? {
      return Failure(donors.error);
    }
    x.AddEdgesFrom(donors.value);
    TagUntagged(x);
    return Success(x);
  }

  /** The extended subgraph is a graph: its edges join its nodes. */
  lemma ExtendedSubgraphValid(x: Graph, g: Graph, s: set<string>, d: set<Edge>)
    requires Valid(g)
    requires ExtendedSubgraph(x, g, s, d)
    ensures Valid(x)
    ensures forall e :: e in d ==> e in x.edges && e.0 in x.tag && e.1 in x.tag
  {
    forall e | e in x.edges ensures e.0 in x.nodes && e.1 in x.nodes {
      if e !in d {
        assert e in g.edges && e.0 in s && e.1 in s;
      }
    }
  }
}
