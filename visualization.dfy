/** Two helpers of the visualisation code: the bipartite graph built from a
    SMETANA table (genomes and the compounds they exchange, an edge from
    donor to compound and one from compound to receiver), and the renaming
    of reaction ids for an Escher map (a compartment suffix is dropped
    where that leaves the id unambiguous). */
module Visualization {

  import opened Wrappers
  import opened Strings
  import opened Graphs

  datatype VizError =
    | MissingColumn(column: string)   // KeyError: a row has no such column
    | NoUnderscore(id: string)        // ValueError: `rsplit("_", 1)` gives one part

  // ---------------------------------------------------------------------
  // get_graph_object_from_smetana_table

  /** A row of the SMETANA table: column name to cell text. */
  type TableRow = map<string, string>

  /** What one row adds: the three ids and the edge weight. */
  datatype Contribution = Contribution(donor: string, receiver: string, compound: string, weight: string)

  /** Lines 143-149: the weight cell when a weight column is named (or ""),
      then the donor, receiver and compound cells, each a KeyError when
      missing. */
  function RowFields(row: TableRow, weight: Option<string>): (r: Result<Contribution, VizError>)
    ensures r.Success? <==> (weight.Some? ==> weight.value in row) && "donor" in row && "receiver" in row && "compound" in row
    ensures r.Success? ==> r.value.donor == row["donor"] && r.value.receiver == row["receiver"] && r.value.compound == row["compound"]
    ensures r.Success? ==> r.value.weight == (if weight.Some? then row[weight.value] else "")
  {
    if weight.Some? && weight.value !in row then Failure(MissingColumn(weight.value))
    else if "donor" !in row then Failure(MissingColumn("donor"))
    else if "receiver" !in row then Failure(MissingColumn("receiver"))
    else if "compound" !in row then Failure(MissingColumn("compound"))
    else Success(Contribution(row["donor"], row["receiver"], row["compound"],
                              if weight.Some? then row[weight.value] else ""))
  }

  /** The rows read in order after acc; the first row that fails stops the
      reading. */
  function ContributionsFrom(acc: seq<Contribution>, rows: seq<TableRow>, weight: Option<string>)
    : Result<seq<Contribution>, VizError>
    decreases |rows|
  {
    if rows == [] then Success(acc)
    else
      var f := RowFields(rows[0], weight);
      if f.Failure? then Failure(f.error) else ContributionsFrom(acc + [f.value], rows[1..], weight)
  }

  /** Reading succeeds exactly when every row has the columns, and then
      gives one contribution per row, in order. */
  lemma {:induction false} ContributionsOfRows(acc: seq<Contribution>, rows: seq<TableRow>, weight: Option<string>)
    ensures var r := ContributionsFrom(acc, rows, weight);
      && (r.Success? <==> forall i :: 0 <= i < |rows| ==> RowFields(rows[i], weight).Success?)
      && (r.Success? ==>
            && |r.value| == |acc| + |rows|
            && acc <= r.value
            && forall i :: 0 <= i < |rows| ==> RowFields(rows[i], weight) == Success(r.value[|acc| + i]))
    decreases |rows|
  {
    if rows != [] {
      var f := RowFields(rows[0], weight);
      if f.Success? {
        ContributionsOfRows(acc + [f.value], rows[1..], weight);
        var r := ContributionsFrom(acc, rows, weight);
        assert forall i :: 0 < i < |rows| ==> rows[i] == rows[1..][i - 1];
        if r.Success? {
          assert r.value[|acc|] == f.value;
        }
      }
    }
  }

  const GenomeTag := 0
  const CompoundTag := 1

  /** The graph with its attributes: `bipartite` and `group` per node, and
      `weight` per edge (the edges are the keys of `weight`). */
  datatype AttributedGraph = AttributedGraph(
    nodes: seq<string>, bipartite: map<string, int>, group: map<string, string>, weight: map<Edge, string>)

  const EmptyGraph := AttributedGraph([], map[], map[], map[])

  /** Each node once; attributes and edge ends belong to nodes. */
  predicate WellFormedGraph(g: AttributedGraph)
  {
    && Distinct(g.nodes)
    && (forall n :: n in g.bipartite ==> n in g.nodes)
    && (forall n :: n in g.group ==> n in g.nodes)
    && (forall e :: e in g.weight ==> e.0 in g.nodes && e.1 in g.nodes)
  }

  /** `B.add_edge(u, v, weight=w)`: missing ends are created, and the weight
      of an edge that is already there is overwritten. */
  function WithWeightedEdge(g: AttributedGraph, u: string, v: string, w: string): AttributedGraph
  {
    var ns := if u in g.nodes then g.nodes else g.nodes + [u];
    var ns' := if v in ns then ns else ns + [v];
    g.(nodes := ns', weight := g.weight[(u, v) := w])
  }

  /** `B.add_node(n, bipartite=t, group=grp)`: the attributes of a node that
      is already there are overwritten. */
  function WithAttributes(g: AttributedGraph, n: string, t: int, grp: string): AttributedGraph
  {
    g.(nodes := if n in g.nodes then g.nodes else g.nodes + [n], bipartite := g.bipartite[n := t], group := g.group[n := grp])
  }

  /** Lines 150-154: the two edges of a row, then the attributes of its
      donor, receiver and compound, in that order. */
  function WithRow(g: AttributedGraph, c: Contribution): AttributedGraph
  {
    var g1 := WithWeightedEdge(g, c.donor, c.compound, c.weight);
    var g2 := WithWeightedEdge(g1, c.compound, c.receiver, c.weight);
    var g3 := WithAttributes(g2, c.donor, GenomeTag, "genome");
    var g4 := WithAttributes(g3, c.receiver, GenomeTag, "genome");
    WithAttributes(g4, c.compound, CompoundTag, "compound")
  }

  function BuildFrom(g: AttributedGraph, cs: seq<Contribution>): AttributedGraph
    decreases |cs|
  {
    if cs == [] then g else BuildFrom(WithRow(g, cs[0]), cs[1..])
  }

  /** The whole function: KeyError from the first row without a needed
      column, else the graph of all rows. */
  function SmetanaGraph(rows: seq<TableRow>, weight: Option<string>): Result<AttributedGraph, VizError>
  {
    var cs := ContributionsFrom([], rows, weight);
    if cs.Failure? then Failure(cs.error) else Success(BuildFrom(EmptyGraph, cs.value))
  }

  predicate Mentions(c: Contribution, n: string)
  {
    n == c.donor || n == c.receiver || n == c.compound
  }

  predicate Contributes(c: Contribution, e: Edge)
  {
    e == (c.donor, c.compound) || e == (c.compound, c.receiver)
  }

  /** The attributes a row gives a node it mentions: the compound role is
      applied last, so it wins over a genome role in the same row. */
  function RowTag(c: Contribution, n: string): int
  {
    if n == c.compound then CompoundTag else GenomeTag
  }

  function GroupOf(t: int): string
  {
    if t == CompoundTag then "compound" else "genome"
  }

  /** The last row at or after row i that satisfies p. */
  function LastWhere(cs: seq<Contribution>, p: Contribution -> bool, i: nat): (k: nat)
    requires i < |cs| && p(cs[i])
    ensures i <= k < |cs| && p(cs[k]) && forall j :: k < j < |cs| ==> !p(cs[j])
    decreases |cs| - i
  {
    if exists j :: i < j < |cs| && p(cs[j]) then
      var j :| i < j < |cs| && p(cs[j]);
      LastWhere(cs, p, j)
    else i
  }

  lemma WithRowWellFormed(g: AttributedGraph, c: Contribution)
    requires WellFormedGraph(g)
    ensures WellFormedGraph(WithRow(g, c))
  {
    var g1 := WithWeightedEdge(g, c.donor, c.compound, c.weight);
    var g2 := WithWeightedEdge(g1, c.compound, c.receiver, c.weight);
    var g3 := WithAttributes(g2, c.donor, GenomeTag, "genome");
    var g4 := WithAttributes(g3, c.receiver, GenomeTag, "genome");
    WithWeightedEdgeWellFormed(g, c.donor, c.compound, c.weight);
    WithWeightedEdgeWellFormed(g1, c.compound, c.receiver, c.weight);
    WithAttributesWellFormed(g2, c.donor, GenomeTag, "genome");
    WithAttributesWellFormed(g3, c.receiver, GenomeTag, "genome");
    WithAttributesWellFormed(g4, c.compound, CompoundTag, "compound");
  }

  lemma DistinctAppend(s: seq<string>, x: string)
    requires Distinct(s) && x !in s
    ensures Distinct(s + [x])
  {
    assert forall i :: 0 <= i < |s| ==> (s + [x])[i] == s[i];
  }

  lemma WithWeightedEdgeWellFormed(g: AttributedGraph, u: string, v: string, w: string)
    requires WellFormedGraph(g)
    ensures WellFormedGraph(WithWeightedEdge(g, u, v, w))
  {
    var ns := if u in g.nodes then g.nodes else g.nodes + [u];
    if u !in g.nodes {
      DistinctAppend(g.nodes, u);
    }
    if v !in ns {
      DistinctAppend(ns, v);
    }
  }

  lemma WithAttributesWellFormed(g: AttributedGraph, n: string, t: int, grp: string)
    requires WellFormedGraph(g)
    ensures WellFormedGraph(WithAttributes(g, n, t, grp))
  {
    if n !in g.nodes {
      DistinctAppend(g.nodes, n);
    }
  }

  lemma {:induction false} BuildWellFormed(g: AttributedGraph, cs: seq<Contribution>)
    requires WellFormedGraph(g)
    ensures WellFormedGraph(BuildFrom(g, cs))
    decreases |cs|
  {
    if cs != [] {
      WithRowWellFormed(g, cs[0]);
      BuildWellFormed(WithRow(g, cs[0]), cs[1..]);
    }
  }

  /** What one row does to an edge: it adds the row's two pairs with the
      row's weight and leaves every other edge as it was. */
  lemma RowEdgeEffect(g: AttributedGraph, c: Contribution, e: Edge)
    ensures Contributes(c, e) ==> e in WithRow(g, c).weight && WithRow(g, c).weight[e] == c.weight
    ensures !Contributes(c, e) ==> (e in WithRow(g, c).weight <==> e in g.weight)
    ensures !Contributes(c, e) && e in g.weight ==> WithRow(g, c).weight[e] == g.weight[e]
  {
  }

  /** What one row does to a node: a node it mentions is present with the
      row's attributes, any other node keeps its own. */
  lemma RowNodeEffect(g: AttributedGraph, c: Contribution, n: string)
    ensures n in WithRow(g, c).nodes <==> n in g.nodes || Mentions(c, n)
    ensures Mentions(c, n) ==> && n in WithRow(g, c).bipartite && WithRow(g, c).bipartite[n] == RowTag(c, n)
                               && n in WithRow(g, c).group && WithRow(g, c).group[n] == GroupOf(RowTag(c, n))
    ensures !Mentions(c, n) ==> && (n in WithRow(g, c).bipartite <==> n in g.bipartite)
                                && (n in WithRow(g, c).group <==> n in g.group)
    ensures !Mentions(c, n) && n in g.bipartite ==> WithRow(g, c).bipartite[n] == g.bipartite[n]
    ensures !Mentions(c, n) && n in g.group ==> WithRow(g, c).group[n] == g.group[n]
  {
  }

  /** An edge no row adds is as in g. */
  lemma {:induction false} EdgeUntouched(g: AttributedGraph, cs: seq<Contribution>, e: Edge)
    requires forall c :: c in cs ==> !Contributes(c, e)
    ensures e in BuildFrom(g, cs).weight <==> e in g.weight
    ensures e in g.weight ==> BuildFrom(g, cs).weight[e] == g.weight[e]
    decreases |cs|
  {
    if cs != [] {
      RowEdgeEffect(g, cs[0], e);
      EdgeUntouched(WithRow(g, cs[0]), cs[1..], e);
    }
  }

  /** An edge weighs what the last row that adds it says. */
  lemma {:induction false} EdgeOfLastRow(g: AttributedGraph, cs: seq<Contribution>, i: nat, e: Edge)
    requires i < |cs| && Contributes(cs[i], e)
    requires forall c :: c in cs[i + 1..] ==> !Contributes(c, e)
    ensures e in BuildFrom(g, cs).weight && BuildFrom(g, cs).weight[e] == cs[i].weight
    decreases |cs|
  {
    if i > 0 {
      assert cs[1..][i - 1] == cs[i] && cs[1..][i..] == cs[i + 1..];
      EdgeOfLastRow(WithRow(g, cs[0]), cs[1..], i - 1, e);
    } else {
      RowEdgeEffect(g, cs[0], e);
      EdgeUntouched(WithRow(g, cs[0]), cs[1..], e);
    }
  }

  /** The edges are those of g and the rows' donor-to-compound and
      compound-to-receiver pairs, and no others. */
  lemma EdgesOfRows(g: AttributedGraph, cs: seq<Contribution>, e: Edge)
    ensures e in BuildFrom(g, cs).weight <==> e in g.weight || exists i :: 0 <= i < |cs| && Contributes(cs[i], e)
  {
    var p := (c: Contribution) => Contributes(c, e);
    if i :| 0 <= i < |cs| && Contributes(cs[i], e) {
      var k := LastWhere(cs, p, i);
      forall c | c in cs[k + 1..] ensures !Contributes(c, e) {
        var j :| k + 1 <= j < |cs| && cs[j] == c;
      }
      EdgeOfLastRow(g, cs, k, e);
    } else {
      EdgeUntouched(g, cs, e);
    }
  }

  /** A node no row mentions keeps its presence and attributes from g. */
  lemma {:induction false} NodeUntouched(g: AttributedGraph, cs: seq<Contribution>, n: string)
    requires forall c :: c in cs ==> !Mentions(c, n)
    ensures n in BuildFrom(g, cs).nodes <==> n in g.nodes
    ensures n in BuildFrom(g, cs).bipartite <==> n in g.bipartite
    ensures n in g.bipartite ==> BuildFrom(g, cs).bipartite[n] == g.bipartite[n]
    ensures n in BuildFrom(g, cs).group <==> n in g.group
    ensures n in g.group ==> BuildFrom(g, cs).group[n] == g.group[n]
    decreases |cs|
  {
    if cs != [] {
      RowNodeEffect(g, cs[0], n);
      NodeUntouched(WithRow(g, cs[0]), cs[1..], n);
    }
  }

  /** A node has the attributes the last row mentioning it gives: tag 1
      and group "compound" when it is that row's compound, tag 0 and group
      "genome" otherwise. */
  lemma {:induction false} NodeOfLastRow(g: AttributedGraph, cs: seq<Contribution>, i: nat, n: string)
    requires i < |cs| && Mentions(cs[i], n)
    requires forall c :: c in cs[i + 1..] ==> !Mentions(c, n)
    ensures var r := BuildFrom(g, cs);
      && n in r.nodes && n in r.bipartite && n in r.group
      && r.bipartite[n] == RowTag(cs[i], n) && r.group[n] == GroupOf(RowTag(cs[i], n))
    decreases |cs|
  {
    if i > 0 {
      assert cs[1..][i - 1] == cs[i] && cs[1..][i..] == cs[i + 1..];
      NodeOfLastRow(WithRow(g, cs[0]), cs[1..], i - 1, n);
    } else {
      RowNodeEffect(g, cs[0], n);
      NodeUntouched(WithRow(g, cs[0]), cs[1..], n);
    }
  }

  /** The last row mentioning n is followed by none that does. */
  lemma LastMention(cs: seq<Contribution>, n: string, i: nat) returns (k: nat)
    requires i < |cs| && Mentions(cs[i], n)
    ensures k < |cs| && Mentions(cs[k], n) && forall c :: c in cs[k + 1..] ==> !Mentions(c, n)
  {
    k := LastWhere(cs, (c: Contribution) => Mentions(c, n), i);
    forall c | c in cs[k + 1..] ensures !Mentions(c, n) {
      var j :| k + 1 <= j < |cs| && cs[j] == c;
    }
  }

  /** The nodes are those of g and the ids the rows mention. */
  lemma NodesOfRows(g: AttributedGraph, cs: seq<Contribution>, n: string)
    ensures n in BuildFrom(g, cs).nodes <==> n in g.nodes || exists i :: 0 <= i < |cs| && Mentions(cs[i], n)
  {
    if i :| 0 <= i < |cs| && Mentions(cs[i], n) {
      var k := LastMention(cs, n, i);
      NodeOfLastRow(g, cs, k, n);
    } else {
      NodeUntouched(g, cs, n);
    }
  }

  /** Each row adds at most two edges. */
  lemma {:induction false} EdgeCount(g: AttributedGraph, cs: seq<Contribution>)
    ensures |BuildFrom(g, cs).weight| <= |g.weight| + 2 * |cs|
    decreases |cs|
  {
    if cs != [] {
      EdgeCount(WithRow(g, cs[0]), cs[1..]);
    }
  }

  /** The graph of a SMETANA table has one contribution per row, each node
      once, and at most two edges per row. */
  lemma SmetanaGraphShape(rows: seq<TableRow>, weight: Option<string>)
    requires SmetanaGraph(rows, weight).Success?
    ensures var g := SmetanaGraph(rows, weight).value;
      && |ContributionsFrom([], rows, weight).value| == |rows|
      && WellFormedGraph(g)
      && |g.weight| <= 2 * |rows|
  {
    var cs := ContributionsFrom([], rows, weight).value;
    ContributionsOfRows([], rows, weight);
    BuildWellFormed(EmptyGraph, cs);
    EdgeCount(EmptyGraph, cs);
  }

  /** Its edges are exactly the rows' donor-to-compound and
      compound-to-receiver pairs, and its nodes exactly the ids the rows
      mention. */
  lemma SmetanaGraphEdgesAndNodes(rows: seq<TableRow>, weight: Option<string>)
    requires SmetanaGraph(rows, weight).Success?
    ensures var g := SmetanaGraph(rows, weight).value;
      var cs := ContributionsFrom([], rows, weight).value;
      && (forall e :: e in g.weight <==> exists i :: 0 <= i < |cs| && Contributes(cs[i], e))
      && (forall n :: n in g.nodes <==> exists i :: 0 <= i < |cs| && Mentions(cs[i], n))
  {
    var cs := ContributionsFrom([], rows, weight).value;
    forall e {
      EdgesOfRows(EmptyGraph, cs, e);
    }
    forall n {
      NodesOfRows(EmptyGraph, cs, n);
    }
  }

  /** A node of the graph built from rows has an edge from the first row
      that mentions it. */
  lemma NodeHasEdge(cs: seq<Contribution>, n: string)
    requires n in BuildFrom(EmptyGraph, cs).nodes
    ensures var g := BuildFrom(EmptyGraph, cs);
      exists m :: (n, m) in g.weight || (m, n) in g.weight
  {
    NodesOfRows(EmptyGraph, cs, n);
    var i :| 0 <= i < |cs| && Mentions(cs[i], n);
    var c := cs[i];
    if n == c.receiver {
      EdgesOfRows(EmptyGraph, cs, (c.compound, c.receiver));
      assert Contributes(cs[i], (c.compound, n));
    } else {
      EdgesOfRows(EmptyGraph, cs, (c.donor, c.compound));
      assert Contributes(cs[i], (c.donor, c.compound));
    }
  }

  /** A node of the graph built from rows carries the tag and group of the
      last row that mentions it. */
  lemma NodeTagged(cs: seq<Contribution>, n: string)
    requires n in BuildFrom(EmptyGraph, cs).nodes
    ensures var g := BuildFrom(EmptyGraph, cs);
      n in g.bipartite && n in g.group && g.group[n] == GroupOf(g.bipartite[n])
  {
    NodesOfRows(EmptyGraph, cs, n);
    var i :| 0 <= i < |cs| && Mentions(cs[i], n);
    var k := LastMention(cs, n, i);
    NodeOfLastRow(EmptyGraph, cs, k, n);
  }

  /** No node is isolated, and every node carries a `bipartite` tag and
      the group that goes with it. */
  lemma SmetanaGraphAttributes(rows: seq<TableRow>, weight: Option<string>)
    requires SmetanaGraph(rows, weight).Success?
    ensures var g := SmetanaGraph(rows, weight).value;
      && (forall n :: n in g.nodes ==> exists m :: (n, m) in g.weight || (m, n) in g.weight)
      && (forall n :: n in g.nodes ==> n in g.bipartite && n in g.group && g.group[n] == GroupOf(g.bipartite[n]))
  {
    var cs := ContributionsFrom([], rows, weight).value;
    forall n | n in BuildFrom(EmptyGraph, cs).nodes
      ensures var g := BuildFrom(EmptyGraph, cs);
        && (exists m :: (n, m) in g.weight || (m, n) in g.weight)
        && n in g.bipartite && n in g.group && g.group[n] == GroupOf(g.bipartite[n])
    {
      NodeHasEdge(cs, n);
      NodeTagged(cs, n);
    }
  }

  /** `add_node` and `add_edge` on an attributed graph object. */
  class AttributedDiGraph {
    var nodes: seq<string>
    var bipartite: map<string, int>
    var group: map<string, string>
    var weight: map<Edge, string>

    function Value(): AttributedGraph
      reads this
    {
      AttributedGraph(nodes, bipartite, group, weight)
    }

    constructor ()
      ensures Value() == EmptyGraph
    {
      nodes, bipartite, group, weight := [], map[], map[], map[];
    }

    method AddEdge(u: string, v: string, w: string)
      modifies this
      ensures Value() == WithWeightedEdge(old(Value()), u, v, w)
    {
      if u !in nodes {
        nodes := nodes + [u];
      }
      if v !in nodes {
        nodes := nodes + [v];
      }
      weight := weight[(u, v) := w];
    }

    method AddNode(n: string, t: int, grp: string)
      modifies this
      ensures Value() == WithAttributes(old(Value()), n, t, grp)
    {
      if n !in nodes {
        nodes := nodes + [n];
      }
      bipartite := bipartite[n := t];
      group := group[n := grp];
    }
  }

  /** Lines 142-154: the graph filled row by row. */
  method GetGraphObjectFromSmetanaTable(table: seq<TableRow>, weight: Option<string>)
    returns (r: Result<AttributedDiGraph, VizError>)
    ensures r.Success? <==> SmetanaGraph(table, weight).Success?
    ensures r.Failure? ==> r.error == SmetanaGraph(table, weight).error
    ensures r.Success? ==> fresh(r.value) && r.value.Value() == SmetanaGraph(table, weight).value
  {
    var b := new AttributedDiGraph();
    var done: seq<Contribution> := [];
    var i := 0;
    while i < |table|
      invariant 0 <= i <= |table|
      invariant ContributionsFrom(done, table[i..], weight) == ContributionsFrom([], table, weight)
      invariant fresh(b) && b.Value() == BuildFrom(EmptyGraph, done)
    {
      assert table[i..][0] == table[i] && table[i..][1..] == table[i + 1..];
      var row := table[i];
      var f := RowFields(row, weight);
      if f.Failure? {
        return Failure(f.error);
      }
      var c := f.value;
      b.AddEdge(c.donor, c.compound, c.weight);
      b.AddEdge(c.compound, c.receiver, c.weight);
      b.AddNode(c.donor, GenomeTag, "genome");
      b.AddNode(c.receiver, GenomeTag, "genome");
      b.AddNode(c.compound, CompoundTag, "compound");
      BuildAppend(EmptyGraph, done, c);
      done := done + [c];
      i := i + 1;
    }
    assert table[i..] == [];
    r := Success(b);
  }

  /** Building row by row: one more row is one more step. */
  lemma {:induction false} BuildAppend(g: AttributedGraph, cs: seq<Contribution>, c: Contribution)
    ensures BuildFrom(g, cs + [c]) == WithRow(BuildFrom(g, cs), c)
    decreases |cs|
  {
    if cs == [] {
      assert [c][1..] == [];
    } else {
      assert (cs + [c])[1..] == cs[1..] + [c];
      BuildAppend(WithRow(g, cs[0]), cs[1..], c);
    }
  }

  // ---------------------------------------------------------------------
  // rename_rxn_ids_for_escher

  predicate IsCompartmentLetter(c: char)
  {
    c == 'c' || c == 'h' || c == 'm' || c == 'x'
  }

  /** The lazy group `(.+?)` started at p and now ending before k: the
      first k at which `_` and a compartment letter follow, as long as the
      group has not reached a newline (`.` does not match one). */
  function LazyEnd(s: string, p: nat, k: nat): (r: Option<nat>)
    requires p < k <= |s| && '\n' !in s[p..k]
    ensures r.Some? ==> k <= r.value && r.value + 1 < |s| && s[r.value] == '_' && IsCompartmentLetter(s[r.value + 1])
    ensures r.Some? ==> '\n' !in s[p..r.value]
    decreases |s| - k
  {
    if k + 1 < |s| && s[k] == '_' && IsCompartmentLetter(s[k + 1]) then Some(k)
    else if k < |s| && s[k] != '\n' then
      assert s[p..k + 1] == s[p..k] + [s[k]];
      LazyEnd(s, p, k + 1)
    else None
  }

  /** `re.search(r"(.+?)_(?:c|h|m|x)", s).group(1)` from position p on:
      the leftmost start, then the shortest group. */
  function SearchBase(s: string, p: nat): (r: Option<string>)
    requires p <= |s|
    decreases |s| - p
  {
    if p == |s| then None
    else if s[p] != '\n' && (assert s[p..p + 1] == [s[p]]; LazyEnd(s, p, p + 1)).Some? then
      Some(s[p..LazyEnd(s, p, p + 1).value])
    else SearchBase(s, p + 1)
  }

  /** `Series.str.extract(...)[0]`, None where nothing matches. */
  function ExtractBase(id: string): Option<string>
  {
    SearchBase(id, 0)
  }

  /** For an id without a newline, the base is its shortest non-empty
      prefix that is followed by `_` and one of c, h, m, x. */
  lemma ExtractedBaseIsShortestPrefix(id: string)
    requires '\n' !in id
    ensures var b := ExtractBase(id);
      && (b.Some? <==> exists k :: 1 <= k && k + 1 < |id| && id[k] == '_' && IsCompartmentLetter(id[k + 1]))
      && (b.Some? ==>
            && |b.value| >= 1 && |b.value| + 1 < |id| && b.value == id[..|b.value|]
            && id[|b.value|] == '_' && IsCompartmentLetter(id[|b.value| + 1])
            && forall k :: 1 <= k < |b.value| ==> !(id[k] == '_' && IsCompartmentLetter(id[k + 1])))
  {
    if id != [] {
      assert id[0..1] == [id[0]];
      LazyEndFirst(id, 0, 1);
      if LazyEnd(id, 0, 1).None? {
        NoMatchLater(id, 1);
      }
    }
  }

  /** Without a newline, the lazy group ends at the first fitting k. */
  lemma {:induction false} LazyEndFirst(s: string, p: nat, k: nat)
    requires p < k <= |s| && '\n' !in s
    ensures '\n' !in s[p..k]
    ensures var r := LazyEnd(s, p, k);
      && (r.Some? <==> exists j :: k <= j && j + 1 < |s| && s[j] == '_' && IsCompartmentLetter(s[j + 1]))
      && (r.Some? ==> forall j :: k <= j < r.value ==> !(s[j] == '_' && IsCompartmentLetter(s[j + 1])))
    decreases |s| - k
  {
    if !(k + 1 < |s| && s[k] == '_' && IsCompartmentLetter(s[k + 1])) && k < |s| {
      assert s[p..k + 1] == s[p..k] + [s[k]];
      LazyEndFirst(s, p, k + 1);
    }
  }

  /** When no match starts at position 0 (and there is no newline), none
      starts later either. */
  lemma {:induction false} NoMatchLater(s: string, p: nat)
    requires 0 < p <= |s| && '\n' !in s
    requires forall j :: 1 <= j && j + 1 < |s| ==> !(s[j] == '_' && IsCompartmentLetter(s[j + 1]))
    ensures SearchBase(s, p) == None
    decreases |s| - p
  {
    if p < |s| {
      assert s[p..p + 1] == [s[p]];
      LazyEndFirst(s, p, p + 1);
      NoMatchLater(s, p + 1);
    }
  }

  /** The bases found in the index, in order (`dropna`). */
  function Bases(index: seq<string>): (r: seq<string>)
    ensures forall b :: b in r <==> exists id :: id in index && ExtractBase(id) == Some(b)
  {
    if index == [] then []
    else
      var rest := Bases(index[1..]);
      assert forall id :: id in index <==> id == index[0] || id in index[1..];
      match ExtractBase(index[0])
      case Some(b) => [b] + rest
      case None => rest
  }

  /** How often b occurs in s. */
  function Count(s: seq<string>, b: string): nat
  {
    if s == [] then 0 else (if s[0] == b then 1 else 0) + Count(s[1..], b)
  }

  /** The groups of lines 97-104, as membership tests. */
  datatype BaseGroups = BaseGroups(unique: set<string>, duplicated: set<string>, withC: set<string>, withM: set<string>)

  function Groups(index: seq<string>): (r: BaseGroups)
  {
    var bases := Bases(index);
    var unique := set b | b in bases && Count(bases, b) == 1;
    var duplicated := set b | b in bases && Count(bases, b) > 1;
    var withC := set b | b in duplicated && b + "_c" in index;
    var withM := set b | b in duplicated && b + "_m" in index && b !in withC;
    BaseGroups(unique, duplicated, withC, withM)
  }

  /** Lines 107-122: split at the last `_`; shorten to the base when the
      base is unique, or is the kept variant of a duplicated base. */
  function CustomReplace(gr: BaseGroups, id: string): Result<string, VizError>
  {
    match RSplitOnce(id, '_')
    case None => Failure(NoUnderscore(id))
    case Some((base, comp)) =>
      if base in gr.unique then Success(base)
      else if base in gr.withC && comp == "c" then Success(base)
      else if base in gr.withM && comp == "m" then Success(base)
      else if base in gr.duplicated && base !in gr.withC && base !in gr.withM then Success(base)
      else Success(id)
  }

  /** `fluxes.index.map(custom_replace)`: the first id without `_` raises. */
  function MapIndex(gr: BaseGroups, ids: seq<string>): (r: Result<seq<string>, VizError>)
    ensures r.Success? ==> |r.value| == |ids|
  {
    if ids == [] then Success([])
    else
      var h := CustomReplace(gr, ids[0]);
      if h.Failure? then Failure(h.error)
      else
        var t := MapIndex(gr, ids[1..]);
        if t.Failure? then t else Success([h.value] + t.value)
  }

  /** The keys of the entries, in order. */
  function KeysOf(entries: seq<(string, real)>): (r: seq<string>)
    ensures |r| == |entries| && forall i :: 0 <= i < |entries| ==> r[i] == entries[i].0
  {
    seq(|entries|, i requires 0 <= i < |entries| => entries[i].0)
  }

  /** `groupby(index).first()`: one entry per id, with the value of its
      first row. */
  function FirstPerKey(acc: seq<(string, real)>, ids: seq<string>, values: seq<real>): (r: seq<(string, real)>)
    requires |ids| == |values|
    decreases |ids|
  {
    if ids == [] then acc
    else if ids[0] in KeysOf(acc) then FirstPerKey(acc, ids[1..], values[1..])
    else FirstPerKey(acc + [(ids[0], values[0])], ids[1..], values[1..])
  }

  /** `rename(index=reaction_mapping)`: mapped ids take their new name. */
  function RenameKeys(entries: seq<(string, real)>, mapping: map<string, string>): (r: seq<(string, real)>)
    ensures |r| == |entries|
    ensures forall k :: 0 <= k < |r| ==>
      && r[k].1 == entries[k].1
      && r[k].0 == (if entries[k].0 in mapping then mapping[entries[k].0] else entries[k].0)
  {
    if entries == [] then []
    else
      var e := entries[0];
      [(if e.0 in mapping then mapping[e.0] else e.0, e.1)] + RenameKeys(entries[1..], mapping)
  }

  /** The result of lines 97-126 for an index and its values. */
  function EscherRename(index: seq<string>, values: seq<real>, mapping: map<string, string>)
    : Result<seq<(string, real)>, VizError>
    requires |index| == |values|
  {
    var renamed := MapIndex(Groups(index), index);
    if renamed.Failure? then Failure(renamed.error)
    else Success(RenameKeys(FirstPerKey([], renamed.value, values), mapping))
  }

  /** The Series passed in: its index is replaced in place at line 124. */
  class Fluxes {
    var index: seq<string>
    var values: seq<real>

    constructor (index: seq<string>, values: seq<real>)
      ensures this.index == index && this.values == values
    {
      this.index := index;
      this.values := values;
    }
  }

  /** Lines 84-126: on success the caller's Series now has the shortened
      ids; when an id has no `_` nothing is changed. */
  method RenameRxnIdsForEscher(fluxes: Fluxes, mapping: map<string, string>) returns (r: Result<seq<(string, real)>, VizError>)
    requires |fluxes.index| == |fluxes.values|
    modifies fluxes
    ensures r == EscherRename(old(fluxes.index), old(fluxes.values), mapping)
    ensures fluxes.values == old(fluxes.values)
    ensures r.Success? ==> fluxes.index == MapIndex(Groups(old(fluxes.index)), old(fluxes.index)).value
    ensures r.Failure? ==> fluxes.index == old(fluxes.index)
  {
    var renamed := MapIndex(Groups(fluxes.index), fluxes.index);
    if renamed.Failure? {
      return Failure(renamed.error);
    }
    var values := fluxes.values;
    fluxes.index := renamed.value;
    r := Success(RenameKeys(FirstPerKey([], renamed.value, values), mapping));
  }

  /** Renaming fails exactly when some id has no `_`. */
  lemma {:induction false} MapIndexFails(gr: BaseGroups, ids: seq<string>)
    ensures MapIndex(gr, ids).Failure? <==> exists k :: 0 <= k < |ids| && '_' !in ids[k]
    ensures MapIndex(gr, ids).Success? ==> forall k :: 0 <= k < |ids| ==> MapIndex(gr, ids).value[k] == CustomReplace(gr, ids[k]).value
    decreases |ids|
  {
    if ids != [] {
      MapIndexFails(gr, ids[1..]);
      assert forall k :: 1 <= k < |ids| ==> ids[k] == ids[1..][k - 1];
      if '_' !in ids[0] {
        assert CustomReplace(gr, ids[0]).Failure?;
      }
    }
  }

  /** Lines 97-122 spelled out for an id `base_comp` whose base occurs in
      the index: a base found once is shortened; for a base found more
      than once, only the `_c` variant is shortened when there is one,
      else only the `_m` variant, else every variant. */
  lemma RenamingRules(index: seq<string>, base: string, comp: string)
    requires '_' !in comp
    requires base in Bases(index)
    ensures var gr := Groups(index);
      var r := CustomReplace(gr, base + "_" + comp).value;
      var n := Count(Bases(index), base);
      && (n == 1 ==> r == base)
      && (n > 1 && base + "_c" in index ==> (r == base <==> comp == "c"))
      && (n > 1 && base + "_c" !in index && base + "_m" in index ==> (r == base <==> comp == "m"))
      && (n > 1 && base + "_c" !in index && base + "_m" !in index ==> r == base)
  {
    var id := base + "_" + comp;
    RSplitOnceOfJoin(base, comp);
    if comp != "c" && comp != "m" {
      assert id != base by { assert |id| > |base|; }
    } else {
      assert id != base by { assert |id| > |base|; }
    }
    assert Count(Bases(index), base) >= 1 by { CountPositive(Bases(index), base); }
  }

  lemma {:induction false} RSplitOnceOfJoin(base: string, comp: string)
    requires '_' !in comp
    ensures RSplitOnce(base + "_" + comp, '_') == Some((base, comp))
    decreases |comp|
  {
    var s := base + "_" + comp;
    if comp == [] {
      assert s[..|s| - 1] == base;
    } else {
      var front := comp[..|comp| - 1];
      assert s[..|s| - 1] == base + "_" + front;
      assert comp == front + [comp[|comp| - 1]];
      RSplitOnceOfJoin(base, front);
    }
  }

  lemma {:induction false} CountPositive(s: seq<string>, b: string)
    requires b in s
    ensures Count(s, b) >= 1
  {
    if s[0] != b {
      CountPositive(s[1..], b);
    }
  }

  /** Grouping only appends to what is already grouped. */
  lemma {:induction false} FirstPerKeyExtends(acc: seq<(string, real)>, ids: seq<string>, values: seq<real>)
    requires |ids| == |values|
    ensures acc <= FirstPerKey(acc, ids, values)
    decreases |ids|
  {
    if ids != [] {
      if ids[0] !in KeysOf(acc) {
        FirstPerKeyExtends(acc + [(ids[0], values[0])], ids[1..], values[1..]);
      } else {
        FirstPerKeyExtends(acc, ids[1..], values[1..]);
      }
    }
  }

  /** After grouping, no id has two entries. */
  lemma {:induction false} FirstPerKeyDistinct(acc: seq<(string, real)>, ids: seq<string>, values: seq<real>)
    requires |ids| == |values| && Distinct(KeysOf(acc))
    ensures Distinct(KeysOf(FirstPerKey(acc, ids, values)))
    decreases |ids|
  {
    if ids != [] {
      if ids[0] !in KeysOf(acc) {
        var acc' := acc + [(ids[0], values[0])];
        assert KeysOf(acc') == KeysOf(acc) + [ids[0]];
        DistinctAppend(KeysOf(acc), ids[0]);
        FirstPerKeyDistinct(acc', ids[1..], values[1..]);
      } else {
        FirstPerKeyDistinct(acc, ids[1..], values[1..]);
      }
    }
  }

  /** An id gets the value of its first row. */
  lemma {:induction false} FirstPerKeyFirst(acc: seq<(string, real)>, ids: seq<string>, values: seq<real>, k: nat)
    requires |ids| == |values| && k < |ids|
    requires ids[k] !in KeysOf(acc) && ids[k] !in ids[..k]
    ensures (ids[k], values[k]) in FirstPerKey(acc, ids, values)
    decreases |ids|
  {
    if k == 0 {
      var acc' := acc + [(ids[0], values[0])];
      FirstPerKeyExtends(acc', ids[1..], values[1..]);
      assert acc'[|acc|] == (ids[0], values[0]);
    } else {
      assert ids[0] == ids[..k][0];
      assert ids[1..][k - 1] == ids[k] && values[1..][k - 1] == values[k];
      assert ids[1..][..k - 1] == ids[1..k];
      if ids[0] in KeysOf(acc) {
        FirstPerKeyFirst(acc, ids[1..], values[1..], k - 1);
      } else {
        var acc' := acc + [(ids[0], values[0])];
        assert KeysOf(acc') == KeysOf(acc) + [ids[0]];
        FirstPerKeyFirst(acc', ids[1..], values[1..], k - 1);
      }
    }
  }

  /** Every grouped entry is an (id, value) pair of some row. */
  lemma {:induction false} FirstPerKeyFromRows(acc: seq<(string, real)>, ids: seq<string>, values: seq<real>, x: (string, real))
    requires |ids| == |values| && x in FirstPerKey(acc, ids, values)
    ensures x in acc || exists k :: 0 <= k < |ids| && x == (ids[k], values[k])
    decreases |ids|
  {
    if ids != [] {
      var acc' := if ids[0] in KeysOf(acc) then acc else acc + [(ids[0], values[0])];
      FirstPerKeyFromRows(acc', ids[1..], values[1..], x);
      if x !in acc' {
        var k :| 0 <= k < |ids[1..]| && x == (ids[1..][k], values[1..][k]);
        assert x == (ids[k + 1], values[k + 1]);
      } else if x !in acc {
        assert x == (ids[0], values[0]);
      }
    }
  }

  /** The renamed Series: a ValueError exactly when some id has no `_`;
      otherwise each shortened id appears once, carrying the value of its
      first row, and every entry is a shortened id with one of its rows'
      values, renamed through the mapping. */
  lemma EscherRenameResult(index: seq<string>, values: seq<real>, mapping: map<string, string>)
    requires |index| == |values|
    ensures var r := EscherRename(index, values, mapping);
      && (r.Failure? <==> exists k :: 0 <= k < |index| && '_' !in index[k])
      && (r.Success? ==>
            var ids := MapIndex(Groups(index), index).value;
            var grouped := FirstPerKey([], ids, values);
            && Distinct(KeysOf(grouped))
            && (forall k :: 0 <= k < |ids| && ids[k] !in ids[..k] ==> (ids[k], values[k]) in grouped)
            && (forall x :: x in grouped ==> exists k :: 0 <= k < |ids| && x == (ids[k], values[k]))
            && |r.value| == |grouped|)
  {
    MapIndexFails(Groups(index), index);
    var r := EscherRename(index, values, mapping);
    if r.Success? {
      var ids := MapIndex(Groups(index), index).value;
      FirstPerKeyDistinct([], ids, values);
      forall k | 0 <= k < |ids| && ids[k] !in ids[..k] ensures (ids[k], values[k]) in FirstPerKey([], ids, values) {
        FirstPerKeyFirst([], ids, values, k);
      }
      forall x | x in FirstPerKey([], ids, values) ensures exists k :: 0 <= k < |ids| && x == (ids[k], values[k]) {
        FirstPerKeyFromRows([], ids, values, x);
      }
    }
  }
}
