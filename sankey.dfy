/** The link table of `plot_metabolic_sankey`: rows whose metabolite is
    hidden are dropped, taxa and metabolites become numbered nodes (taxa
    first), and each row with a large enough flux becomes a link. */
module Sankey {

  import opened Wrappers
  import opened Strings
  import opened ExchangeFilter
  import opened BipartiteBuilder

  /** A row of the exchanges table, with the columns the diagram uses. */
  datatype Row = Row(taxon: string, metabolite: string, direction: string, flux: real)

  /** A link of the diagram: node indices and a width. */
  datatype Link = Link(source: nat, target: nat, value: real)

  /** Lines 520-524: the user's hide list, then the default inorganic
      compounds unless they are shown. */
  function MetabolitesToHide(hideMetabolites: Option<seq<string>>, showInorganic: bool): (r: seq<string>)
    ensures forall m :: m in r <==> m in OrEmpty(hideMetabolites) || (!showInorganic && m in DefaultHiddenMetabolites)
  {
    OrEmpty(hideMetabolites) + (if showInorganic then [] else DefaultHiddenMetabolites)
  }

  /** Lines 527-530: the rows whose metabolite, with "_e" removed, is not
      hidden; the others keep their order. */
  function VisibleRows(rows: seq<Row>, hidden: seq<string>): (r: seq<Row>)
    ensures forall x :: x in r <==> x in rows && RemoveAll(x.metabolite, "_e") !in hidden
  {
    if rows == [] then []
    else (if RemoveAll(rows[0].metabolite, "_e") !in hidden then [rows[0]] else []) + VisibleRows(rows[1..], hidden)
  }

  /** `pd.Series.unique()` continued from `seen`: each value once, in order
      of first appearance. */
  function UniqueFrom(seen: seq<string>, s: seq<string>): (r: seq<string>)
    requires Distinct(seen)
    ensures Distinct(r)
    ensures seen <= r
    ensures forall x :: x in r <==> x in seen || x in s
    decreases |s|
  {
    if s == [] then seen
    else if s[0] in seen then UniqueFrom(seen, s[1..])
    else UniqueFrom(seen + [s[0]], s[1..])
  }

  function Unique(s: seq<string>): (r: seq<string>)
    ensures Distinct(r)
    ensures forall x :: x in r <==> x in s
  {
    UniqueFrom([], s)
  }

  function Taxa(rows: seq<Row>): seq<string>
  {
    seq(|rows|, i requires 0 <= i < |rows| => rows[i].taxon)
  }

  function Metabolites(rows: seq<Row>): seq<string>
  {
    seq(|rows|, i requires 0 <= i < |rows| => rows[i].metabolite)
  }

  /** `list.index(x)`: the first position of x. */
  function IndexOf(s: seq<string>, x: string): (r: nat)
    requires x in s
    ensures r < |s| && s[r] == x && x !in s[..r]
  {
    if s[0] == x then 0
    else
      var k := IndexOf(s[1..], x);
      assert s[..k + 1] == [s[0]] + s[1..][..k];
      k + 1
  }

  /** Lines 546-559: an export links the taxon to the metabolite; any other
      direction links the metabolite to the taxon. Taxa are numbered from 0,
      metabolites after them. */
  function LinkFor(x: Row, taxa: seq<string>, mets: seq<string>): Link
    requires x.taxon in taxa && x.metabolite in mets
  {
    var t := IndexOf(taxa, x.taxon);
    var m := |taxa| + IndexOf(mets, x.metabolite);
    if x.direction == "export" then Link(t, m, Abs(x.flux)) else Link(m, t, Abs(x.flux))
  }

  /** Every row's taxon is among the taxa and its metabolite among the
      metabolites. */
  predicate Named(rows: seq<Row>, taxa: seq<string>, mets: seq<string>)
  {
    forall x :: x in rows ==> x.taxon in taxa && x.metabolite in mets
  }

  /** The links of the rows whose flux magnitude reaches the cutoff, in row
      order. */
  function LinksFrom(rows: seq<Row>, taxa: seq<string>, mets: seq<string>, cutoff: real): seq<Link>
    requires Named(rows, taxa, mets)
  {
    if rows == [] then []
    else (if Abs(rows[0].flux) >= cutoff then [LinkFor(rows[0], taxa, mets)] else [])
         + LinksFrom(rows[1..], taxa, mets, cutoff)
  }

  /** The rows whose flux magnitude reaches the cutoff. */
  function StrongRows(rows: seq<Row>, cutoff: real): (r: seq<Row>)
    ensures forall x :: x in r ==> x in rows && Abs(x.flux) >= cutoff
  {
    if rows == [] then []
    else (if Abs(rows[0].flux) >= cutoff then [rows[0]] else []) + StrongRows(rows[1..], cutoff)
  }

  /** Every visible row's taxon and metabolite have a node. */
  lemma NamesListed(visible: seq<Row>)
    ensures forall x :: x in visible ==> x.taxon in Unique(Taxa(visible)) && x.metabolite in Unique(Metabolites(visible))
  {
    forall x | x in visible ensures x.taxon in Taxa(visible) && x.metabolite in Metabolites(visible) {
      var i :| 0 <= i < |visible| && visible[i] == x;
      assert Taxa(visible)[i] == x.taxon && Metabolites(visible)[i] == x.metabolite;
    }
  }

  /** One row of the loop: the links from row i on are its own link, when
      it is strong enough, followed by the links of the later rows. */
  lemma LinksStep(visible: seq<Row>, i: nat, taxa: seq<string>, mets: seq<string>, cutoff: real)
    requires i < |visible|
    requires Named(visible, taxa, mets)
    ensures Named(visible[i..], taxa, mets) && Named(visible[i + 1..], taxa, mets)
    ensures visible[i].taxon in taxa && visible[i].metabolite in mets
    ensures LinksFrom(visible[i..], taxa, mets, cutoff)
         == (if Abs(visible[i].flux) >= cutoff then [LinkFor(visible[i], taxa, mets)] else [])
            + LinksFrom(visible[i + 1..], taxa, mets, cutoff)
  {
    assert visible[i..][0] == visible[i] && visible[i..][1..] == visible[i + 1..];
  }

  /** Lines 546-558: the indices of one link. */
  method LinkOf(x: Row, taxa: seq<string>, mets: seq<string>) returns (link: Link)
    requires x.taxon in taxa && x.metabolite in mets
    ensures link == LinkFor(x, taxa, mets)
  {
    var source, target;
    if x.direction == "export" {
      source := IndexOf(taxa, x.taxon);
      target := |taxa| + IndexOf(mets, x.metabolite);
    } else {
      source := |taxa| + IndexOf(mets, x.metabolite);
      target := IndexOf(taxa, x.taxon);
    }
    link := Link(source, target, Abs(x.flux));
  }

  /** The loop at lines 543-559. */
  method CollectLinks(visible: seq<Row>, taxa: seq<string>, mets: seq<string>, cutoff: real) returns (links: seq<Link>)
    requires Named(visible, taxa, mets)
    ensures links == LinksFrom(visible, taxa, mets, cutoff)
  {
    ghost var total := LinksFrom(visible, taxa, mets, cutoff);
    links := [];
    assert visible[0..] == visible;
    for i := 0 to |visible|
      invariant Named(visible[i..], taxa, mets)
      invariant links + LinksFrom(visible[i..], taxa, mets, cutoff) == total
    {
      LinksStep(visible, i, taxa, mets, cutoff);
      var x := visible[i];
      if Abs(x.flux) >= cutoff {
        var link := LinkOf(x, taxa, mets);
        links := links + [link];
      }
    }
  }

  /** Lines 526-559 on the rows in memory: the node labels and the links. */
  method SankeyLinks(rows: seq<Row>, cutoff: real, hideMetabolites: Option<seq<string>>, showInorganic: bool)
    returns (labels: seq<string>, links: seq<Link>, taxa: seq<string>, mets: seq<string>)
    ensures var visible := VisibleRows(rows, MetabolitesToHide(hideMetabolites, showInorganic));
      && taxa == Unique(Taxa(visible)) && mets == Unique(Metabolites(visible))
      && labels == taxa + mets
      && Named(visible, taxa, mets)
      && links == LinksFrom(visible, taxa, mets, cutoff)
  {
    var visible := VisibleRows(rows, MetabolitesToHide(hideMetabolites, showInorganic));
    taxa := Unique(Taxa(visible));
    mets := Unique(Metabolites(visible));
    labels := taxa + mets;
    NamesListed(visible);
    links := CollectLinks(visible, taxa, mets, cutoff);
  }

  /** Link l is row x's link: its ends are node indices whose labels are
      x's taxon and metabolite, taxon first exactly for an export, and its
      width is x's flux magnitude, which reaches the cutoff. */
  predicate LinkMatches(l: Link, x: Row, taxa: seq<string>, mets: seq<string>, cutoff: real)
  {
    var labels := taxa + mets;
    && l.source < |labels| && l.target < |labels|
    && l.value == Abs(x.flux) && l.value >= cutoff
    && (x.direction == "export" ==>
          l.source < |taxa| <= l.target && labels[l.source] == x.taxon && labels[l.target] == x.metabolite)
    && (x.direction != "export" ==>
          l.target < |taxa| <= l.source && labels[l.source] == x.metabolite && labels[l.target] == x.taxon)
  }

  /** A strong row's link matches it. */
  lemma LinkForMatches(x: Row, taxa: seq<string>, mets: seq<string>, cutoff: real)
    requires x.taxon in taxa && x.metabolite in mets
    requires Abs(x.flux) >= cutoff
    ensures LinkMatches(LinkFor(x, taxa, mets), x, taxa, mets, cutoff)
  {
    var labels := taxa + mets;
    assert labels[IndexOf(taxa, x.taxon)] == x.taxon;
    assert labels[|taxa| + IndexOf(mets, x.metabolite)] == x.metabolite;
  }

  /** Each link belongs to one strong row, in row order: its ends are node
      indices whose labels are that row's taxon and metabolite, taxon first
      exactly for an export, and its width is the flux magnitude. */
  lemma {:induction false} LinksMatchRows(rows: seq<Row>, taxa: seq<string>, mets: seq<string>, cutoff: real)
    requires Named(rows, taxa, mets)
    ensures var links := LinksFrom(rows, taxa, mets, cutoff);
      var strong := StrongRows(rows, cutoff);
      && |links| == |strong|
      && forall k :: 0 <= k < |links| ==> LinkMatches(links[k], strong[k], taxa, mets, cutoff)
    decreases |rows|
  {
    if rows != [] {
      var x := rows[0];
      assert Named(rows[1..], taxa, mets);
      LinksMatchRows(rows[1..], taxa, mets, cutoff);
      if Abs(x.flux) >= cutoff {
        LinkForMatches(x, taxa, mets, cutoff);
      }
    }
  }
}
