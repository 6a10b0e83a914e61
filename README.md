# cgem-forge core, modelled in Dafny

cgem-forge builds and studies community genome-scale metabolic models
(GEMs). This project models the parts of it that compute something, and
proves what they promise:

- **The exchange-network engine** (`plot_interactions.py`).
  `generate_bipartite_graph` reads the exchange table into interaction
  records and ranks them by flux with a stable sort. It applies a
  numeric cutoff or a `top20`/`top10` cutoff. It then builds a directed
  taxon/metabolite graph, hides names, adds environmental sources, prunes
  metabolites around a target taxon and drops isolated nodes.
  `plot_trophic_interactions` computes the focus node set, adds the donor
  edges, tags untagged nodes and splits the edges into highlighted and
  ordinary ones. `plot_metabolic_sankey` numbers nodes and builds links.
  The two argument rules of the visualisation entry point (the hide list
  and the cutoff text) are modelled too.
- **Reconstruction helpers** (`reconstruction_helpers.py`): compartment
  suffix stripping, the element counts of a chemical formula, the CO2 and
  HCO3 tests, the medium dictionary, the metabolite-name dictionary and the
  name lookup.
- **The GEM class** (`src/microcom/reconstruction.py`): a class over a
  table of reactions. Each reaction has an id, bounds, compartments, an
  exchange flag and the optional formula of its metabolite. The methods
  change the table in place: removing shuttle and duplicated reactions,
  the `C_` compartment prefix, opening and closing exchanges, the
  organic/inorganic queries, and opening inorganic exchanges.
- **The SMETANA graph builder and the Escher id renaming**
  (`src/cgem-forge/visualization.py`).
- **The taxa table** (both `build_taxa_table.py` copies) and **the medium
  query** (`helper_functions.py` and `get_medium_from_media_db.py`).
- **The CarveMe command builder** (`pipeline/node_1_carveme/entrypoint.py`).

## Layout

| file | module | what it holds |
|---|---|---|
| wrappers.dfy | Wrappers | `Option` and `Result` |
| strings.dfy | Strings | the Python string operations the core uses (`split`, `strip`, `replace`, `startswith`, `rsplit`, `str(int)`, `int(digits)`) |
| graphs.dfy | Graphs | a networkx `DiGraph` as a value (ordered nodes, `bipartite` tags, edge set), its update functions and a `DiGraph` class whose methods update it in place |
| exchange_filter.dfy | ExchangeFilter | parsing the exchange table, the stable flux sort and the cutoffs |
| bipartite.dfy | BipartiteBuilder | the graph construction, the pruning and `generate_bipartite_graph`, plus the entry point's two argument rules |
| trophic.dfy | TrophicFocus | the focus set, donor edges, tagging and the edge split |
| sankey.dfy | Sankey | Sankey node numbering and links |
| reconstruction_helpers.dfy | ReconstructionHelpers | the helpers file |
| reconstruction.dfy | Reconstruction | the `GEM` class |
| visualization.dfy | Visualization | the SMETANA graph and the Escher renaming |
| media_db.dfy | MediaDb | `get_medium_from_media_db` |
| taxa_table.dfy | TaxaTable | the taxa table scripts |
| carve.dfy | Carve | `build_carve_command` and `get_default_processes` |

Some functions of the source loop while updating local variables, and
some methods update objects. Those are written as Dafny methods with loops
or as class methods with `modifies` clauses. Each one is proved equal to a
specification function. Lemmas then prove the promised properties of
that function. Effects outside the program are parameters:

- the processor count;
- Python's `float()` on a field, and how Python prints a float (`show`);
- the folder listing;
- the rows of files already read into memory.

Where the project's prose descriptions and its code differ, the model
follows the code:

- A metabolite on the hide list is never tagged (plot_interactions.py line
  133). Lines 149-152 then remove it even when it is an environmental source
  or a kept metabolite.
- An empty list of environmental sources is not `None` (line 135). With an
  empty list, a metabolite is tagged only through the target-taxon branch
  (lines 139-142).
- A data line with too few fields raises (lines 83-89) and ends the read.
  The model returns that error; it does not skip the line.

## Model

| member | source | states |
|---|---|---|
| ExchangeFilter.ParseLineShape | pipelines/kubeflow/node_3_visualization/plot_interactions.py:80-99 | a line parses to "skip" iff it contains "taxon"; a parsed record has flux >= 0 (`abs(float(...))`) |
| ExchangeFilter.LineParserWellBehaved | pipelines/kubeflow/node_3_visualization/plot_interactions.py:81-89 | the line parser skips exactly the header lines and gives only non-negative fluxes |
| ExchangeFilter.DataLines | pipelines/kubeflow/node_3_visualization/plot_interactions.py:80-82 | every data line is a line of the file that does not contain "taxon" |
| ExchangeFilter.ParseFromAcc | pipelines/kubeflow/node_3_visualization/plot_interactions.py:78-99 | a parse that starts from a list is the parse from the empty list with that list in front |
| ExchangeFilter.ParsedRecords | pipelines/kubeflow/node_3_visualization/plot_interactions.py:79-99 | a successful read gives one record per data line, in file order, each the parse of its line, with flux >= 0 |
| ExchangeFilter.ParseFailureLine | pipelines/kubeflow/node_3_visualization/plot_interactions.py:80-89 | a failed read reports the error of the first data line that fails; every data line before it parses |
| ExchangeFilter.TableRecords | pipelines/kubeflow/node_3_visualization/plot_interactions.py:78-99 | reading the table gives one record per data line, in order, or the error of the first failing data line, all earlier data lines parsing |
| ExchangeFilter.ReadInteractions | pipelines/kubeflow/node_3_visualization/plot_interactions.py:78-99 | the reading loop returns the same result as the table parse |
| ExchangeFilter.WithFlux | pipelines/kubeflow/node_3_visualization/plot_interactions.py:102 | every tie is a record of the input with exactly that flux |
| ExchangeFilter.FluxAtLeast | pipelines/kubeflow/node_3_visualization/plot_interactions.py:116-123 | every record kept is a record of the input with flux >= t, and none is added |
| ExchangeFilter.InsertByFluxMultiset | pipelines/kubeflow/node_3_visualization/plot_interactions.py:102 | one insertion step adds exactly that record to the multiset |
| ExchangeFilter.InsertByFluxBounded | pipelines/kubeflow/node_3_visualization/plot_interactions.py:102 | inserting below a flux bound stays below it |
| ExchangeFilter.InsertByFluxSorted | pipelines/kubeflow/node_3_visualization/plot_interactions.py:102 | inserting into a descending ranking keeps it descending |
| ExchangeFilter.InsertInFrontTies | pipelines/kubeflow/node_3_visualization/plot_interactions.py:102 | a record put in front of a ranking of smaller fluxes: the ties at every value are the old ties followed by its own |
| ExchangeFilter.InsertPastTies | pipelines/kubeflow/node_3_visualization/plot_interactions.py:102 | passing over a record with flux >= its own keeps that record's ties ahead |
| ExchangeFilter.InsertByFluxTies | pipelines/kubeflow/node_3_visualization/plot_interactions.py:102 | inserting into a ranking: the ties at every value are the old ties, then the new record if it ties |
| ExchangeFilter.SortByFluxSorted | pipelines/kubeflow/node_3_visualization/plot_interactions.py:102 | `sort(key=flux, reverse=True)` gives descending flux |
| ExchangeFilter.SortByFluxMultiset | pipelines/kubeflow/node_3_visualization/plot_interactions.py:102 | the sort is a permutation of the records |
| ExchangeFilter.SortByFluxStable | pipelines/kubeflow/node_3_visualization/plot_interactions.py:102 | records of equal flux keep their file order (Python's sort is stable) |
| ExchangeFilter.SortByFluxProperties | pipelines/kubeflow/node_3_visualization/plot_interactions.py:102 | the ranking is sorted, a permutation of the same length, and stable |
| ExchangeFilter.TopCount | pipelines/kubeflow/node_3_visualization/plot_interactions.py:106-114 | `max(1, int(n * p))` is max(1, n div 5) for top20 and max(1, n div 10) for top10: at least 1, and at most n when n >= 1 |
| ExchangeFilter.FluxAtLeastIsPrefix | pipelines/kubeflow/node_3_visualization/plot_interactions.py:116-118 | on a ranking, the records with flux >= t are a prefix, and the record after it is below t |
| ExchangeFilter.FluxAtLeastWithFlux | pipelines/kubeflow/node_3_visualization/plot_interactions.py:119-123 | after the filter, the ties at v are the input's ties at v when v >= c, and none otherwise |
| ExchangeFilter.FluxAtLeastMultiset | pipelines/kubeflow/node_3_visualization/plot_interactions.py:119-123 | a record is kept as often as it occurs when its flux reaches c, and never otherwise |
| ExchangeFilter.NumericCutoffSurvivors | pipelines/kubeflow/node_3_visualization/plot_interactions.py:102-123 | a numeric cutoff c keeps exactly the records with flux >= c, each as often as in the file, largest first, ties in file order |
| ExchangeFilter.RankCutoff | pipelines/kubeflow/node_3_visualization/plot_interactions.py:115-118 | on a ranking, the records reaching the k-th flux are the first j >= k records, and j passes k only through ties |
| ExchangeFilter.TopCutoffSurvivors | pipelines/kubeflow/node_3_visualization/plot_interactions.py:105-118 | `top20`/`top10` on n >= 1 records keeps the first j >= max(1, floor(n p)) ranked records, more than that only through ties |
| ExchangeFilter.CutoffErrors | pipelines/kubeflow/node_3_visualization/plot_interactions.py:105-115 | a cutoff text other than top20/top10 raises, and so does a keyword cutoff on an empty table |
| Graphs.Without | pipelines/kubeflow/node_3_visualization/plot_interactions.py:168 | the node list without x: exactly the other elements, still without repeats |
| Graphs.WithNode | pipelines/kubeflow/node_3_visualization/plot_interactions.py:131-142 | `add_node(n, bipartite=t)` keeps the graph valid; the nodes gain n, its tag is set to t, the edges are unchanged |
| Graphs.Touch | pipelines/kubeflow/node_3_visualization/plot_interactions.py:145-147 | an edge end that is missing is created untagged; edges and tags are unchanged |
| Graphs.WithEdge | pipelines/kubeflow/node_3_visualization/plot_interactions.py:145-147 | `add_edge(u, v)` adds the edge and its ends; tags are unchanged and the graph stays valid |
| Graphs.WithoutNode | pipelines/kubeflow/node_3_visualization/plot_interactions.py:168 | `remove_node` drops the node, its tag and every edge touching it, and nothing else |
| Graphs.WithoutNodes | pipelines/kubeflow/node_3_visualization/plot_interactions.py:149-152 | `remove_nodes_from` leaves exactly the nodes not listed, their tags, and the edges between them |
| Graphs.IsolatedAmong | pipelines/kubeflow/node_3_visualization/plot_interactions.py:170 | the listed nodes that are isolated, in order |
| Graphs.WithoutIsolatesHasNoIsolates | pipelines/kubeflow/node_3_visualization/plot_interactions.py:170 | removing `nx.isolates(G)` leaves no isolated node and the same edges |
| Graphs.EndsAdded | pipelines/kubeflow/node_3_visualization/plot_interactions.py:308 | the ends of one more edge are the old ends and its two |
| Graphs.DiGraph.constructor | pipelines/kubeflow/node_3_visualization/plot_interactions.py:300 | a new graph is empty |
| Graphs.DiGraph.Copy | pipelines/kubeflow/node_3_visualization/plot_interactions.py:300 | `nx.DiGraph(g)` is a fresh object with the same value |
| Graphs.DiGraph.AddNode | pipelines/kubeflow/node_3_visualization/plot_interactions.py:131-156 | the new value is `WithNode` of the old |
| Graphs.DiGraph.AddEdge | pipelines/kubeflow/node_3_visualization/plot_interactions.py:145-147 | the new value is `WithEdge` of the old |
| Graphs.DiGraph.RemoveNode | pipelines/kubeflow/node_3_visualization/plot_interactions.py:168 | the new value is `WithoutNode` of the old |
| Graphs.DiGraph.RemoveNodesFrom | pipelines/kubeflow/node_3_visualization/plot_interactions.py:149-170 | the new value is `WithoutNodes` of the old |
| Graphs.DiGraph.AddEdgesFrom | pipelines/kubeflow/node_3_visualization/plot_interactions.py:308 | the edges grow by exactly the given edges, tags are kept, and ends that were missing are added untagged |
| BipartiteBuilder.EdgeOf | pipelines/kubeflow/node_3_visualization/plot_interactions.py:144-147 | export gives taxon to metabolite, import gives metabolite to taxon, any other direction gives no edge |
| BipartiteBuilder.RecordEdges | pipelines/kubeflow/node_3_visualization/plot_interactions.py:126-147 | the edge set is exactly the edges of the records |
| BipartiteBuilder.AddRecord | pipelines/kubeflow/node_3_visualization/plot_interactions.py:127-147 | one record keeps the graph valid, adds only its own edge, adds only its taxon and metabolite as nodes, and tags only its metabolite as a metabolite |
| BipartiteBuilder.AddRecords | pipelines/kubeflow/node_3_visualization/plot_interactions.py:126-147 | after the loop the graph is valid, keeps its nodes, and its edges are the old ones plus exactly the record edges |
| BipartiteBuilder.AddRecordsProvenance | pipelines/kubeflow/node_3_visualization/plot_interactions.py:131-147 | every node the records add is a name they mention, and every node they tag 1 is one of their metabolites |
| BipartiteBuilder.AddSources | pipelines/kubeflow/node_3_visualization/plot_interactions.py:154-156 | every source is a node afterwards; a new one has tag 1, an existing one keeps its tag; the edges are unchanged |
| BipartiteBuilder.PruneFrom | pipelines/kubeflow/node_3_visualization/plot_interactions.py:158-168 | the pruning loop only removes nodes; an untagged node, a source, a kept node or a non-metabolite stays; tags and edges are those of the survivors |
| BipartiteBuilder.PruneKeepsFeeders | pipelines/kubeflow/node_3_visualization/plot_interactions.py:158-168 | when the target is never pruned, a surviving metabolite of the snapshot is a source, kept, or has an edge to the target |
| BipartiteBuilder.Prepared | pipelines/kubeflow/node_3_visualization/plot_interactions.py:126-156 | the graph before pruning is valid |
| BipartiteBuilder.PreparedMetabolites | pipelines/kubeflow/node_3_visualization/plot_interactions.py:131-156 | before pruning, only record metabolites and sources are tagged 1 |
| BipartiteBuilder.BuildProperties | pipelines/kubeflow/node_3_visualization/plot_interactions.py:126-170 | the result is valid with no isolated node; no hidden name is a node; its edges are the record edges between surviving nodes; every node is a name the records mention or a source |
| BipartiteBuilder.PrunedKeepsFeeders | pipelines/kubeflow/node_3_visualization/plot_interactions.py:158-170 | pruning around a target not tagged 1, then dropping isolates, leaves metabolites only when they are sources, kept, or feed the target |
| BipartiteBuilder.BuildPrunesAroundTarget | pipelines/kubeflow/node_3_visualization/plot_interactions.py:158-170 | with a target taxon, each node tagged 1 in the result is a source, kept, or has an edge to the target |
| BipartiteBuilder.AddInteractions | pipelines/kubeflow/node_3_visualization/plot_interactions.py:126-147 | the loop leaves the graph object holding `AddRecords` of its old value |
| BipartiteBuilder.AddSourceNodes | pipelines/kubeflow/node_3_visualization/plot_interactions.py:154-156 | the loop leaves the graph object holding `AddSources` of its old value |
| BipartiteBuilder.PruneNode | pipelines/kubeflow/node_3_visualization/plot_interactions.py:160-168 | one node is removed exactly when it is prunable in the current graph |
| BipartiteBuilder.PruneAroundTarget | pipelines/kubeflow/node_3_visualization/plot_interactions.py:158-168 | the loop over the node snapshot leaves `PruneFrom` of the old value |
| BipartiteBuilder.GenerateBipartiteGraph | pipelines/kubeflow/node_3_visualization/plot_interactions.py:41-170 | a fresh graph holding the engine's result, or the engine's error |
| BipartiteBuilder.DefaultsNotKept | pipelines/kubeflow/node_3_visualization/entrypoint.py:186-187 | exactly the defaults that are not kept |
| BipartiteBuilder.HiddenMetabolites | pipelines/kubeflow/node_3_visualization/entrypoint.py:183-187 | the user's list comes first; a name is hidden iff the user hides it or, unless inorganics are shown, it is a default that is not kept |
| BipartiteBuilder.CutoffArgument | pipelines/kubeflow/node_3_visualization/entrypoint.py:190-196 | no text gives no cutoff; top20/top10 stay keywords; other text gives `AtLeast(float(text))`, and it fails, with that text, iff the text does not parse as a number |
| BipartiteBuilder.CutoffArgumentAccepted | pipelines/kubeflow/node_3_visualization/entrypoint.py:190-196 | a cutoff the command line accepts is not rejected by the engine on a non-empty table |
| TrophicFocus.WithinIsReachable | pipelines/kubeflow/node_3_visualization/plot_interactions.py:252-265 | n is within k steps of s iff a walk of at most k edges leads from s to n |
| TrophicFocus.CompoundFocusIsWithin | pipelines/kubeflow/node_3_visualization/plot_interactions.py:252-265 | the three rounds of neighbours are the nodes within three steps of the target compound |
| TrophicFocus.CompoundFocusWithinThree | pipelines/kubeflow/node_3_visualization/plot_interactions.py:252-265 | the compound focus is exactly the nodes reachable by a walk of at most three edges |
| TrophicFocus.HighlightError | pipelines/kubeflow/node_3_visualization/plot_interactions.py:240-246 | no error iff every highlighted compound is a node whose successors are tagged; a missing node named is a highlighted one |
| TrophicFocus.Keep | pipelines/kubeflow/node_3_visualization/plot_interactions.py:297 | exactly the nodes of the list that are in the set, without repeats when the list has none |
| TrophicFocus.Induced | pipelines/kubeflow/node_3_visualization/plot_interactions.py:297 | `subgraph(s)` is valid, its nodes are the graph's nodes in s, its edges those with both ends in s |
| TrophicFocus.SplitEdges | pipelines/kubeflow/node_3_visualization/plot_interactions.py:326-335 | the highlighted and ordinary edges are disjoint, together all edges, split by touching a highlighted compound |
| TrophicFocus.EdgeEnds | pipelines/kubeflow/node_3_visualization/plot_interactions.py:337-338 | the nodes of `edge_subgraph` are exactly the ends of its edges |
| TrophicFocus.FocusNodesChecks | pipelines/kubeflow/node_3_visualization/plot_interactions.py:238-295 | a missing-node error names a requested node that is not in the graph; on success the highlights and the target taxon are nodes, the target compound is in the set, the set holds graph nodes, and it is empty only for an empty graph |
| TrophicFocus.TagUntagged | pipelines/kubeflow/node_3_visualization/plot_interactions.py:311-313 | every node gets a tag, an existing tag is kept, a new one is 1; nodes and edges unchanged |
| TrophicFocus.ExtendedFocus | pipelines/kubeflow/node_3_visualization/plot_interactions.py:238-313 | fails iff the focus plan fails; otherwise a fresh graph that is the induced subgraph plus the donor edges, all nodes tagged |
| TrophicFocus.ExtendedSubgraphValid | pipelines/kubeflow/node_3_visualization/plot_interactions.py:300-313 | the extended subgraph is a valid graph holding every donor edge with tagged ends |
| Sankey.MetabolitesToHide | pipelines/kubeflow/node_3_visualization/plot_interactions.py:520-524 | a name is hidden iff the user lists it or, unless inorganics are shown, it is one of the defaults |
| Sankey.VisibleRows | pipelines/kubeflow/node_3_visualization/plot_interactions.py:526-530 | a row stays iff its metabolite with "_e" removed is not hidden |
| Sankey.UniqueFrom | pipelines/kubeflow/node_3_visualization/plot_interactions.py:533-534 | no repeats, the values already seen come first, and exactly the seen values and the input values |
| Sankey.Unique | pipelines/kubeflow/node_3_visualization/plot_interactions.py:533-534 | `unique()` has no repeats and holds exactly the input's values |
| Sankey.IndexOf | pipelines/kubeflow/node_3_visualization/plot_interactions.py:547-551 | `list.index(x)` is the first position of x |
| Sankey.StrongRows | pipelines/kubeflow/node_3_visualization/plot_interactions.py:545 | every row kept is an input row whose flux magnitude reaches the cutoff |
| Sankey.NamesListed | pipelines/kubeflow/node_3_visualization/plot_interactions.py:533-537 | every visible row's taxon and metabolite are node labels |
| Sankey.LinksStep | pipelines/kubeflow/node_3_visualization/plot_interactions.py:544-559 | one row adds its link exactly when it is strong enough |
| Sankey.LinkOf | pipelines/kubeflow/node_3_visualization/plot_interactions.py:546-558 | the link of one row, from the index lookups |
| Sankey.CollectLinks | pipelines/kubeflow/node_3_visualization/plot_interactions.py:543-559 | the loop gives the links of the strong rows, in order |
| Sankey.SankeyLinks | pipelines/kubeflow/node_3_visualization/plot_interactions.py:526-559 | labels are the taxa then the metabolites; the links are those of the visible strong rows |
| Sankey.LinkForMatches | pipelines/kubeflow/node_3_visualization/plot_interactions.py:546-556 | a strong row's link matches it |
| Sankey.LinksMatchRows | pipelines/kubeflow/node_3_visualization/plot_interactions.py:543-559 | link k belongs to strong row k: its ends are the indices labelled with the row's taxon (0..T-1) and metabolite (T..), taxon first iff export, width the flux magnitude |
| ReconstructionHelpers.RemoveCompartment | src/cgem-forge/reconstruction_helpers.py:8-9 | the substitution removes nothing or exactly two characters |
| ReconstructionHelpers.CompartmentRemoved | src/cgem-forge/reconstruction_helpers.py:8-9 | exactly a trailing `_x` (x in a-z) is removed, also before a final newline; any other id is unchanged |
| ReconstructionHelpers.RemoveCompartmentNotIdempotent | src/cgem-forge/reconstruction_helpers.py:8-9 | `a_b_c` becomes `a_b`, then `a` |
| ReconstructionHelpers.AssignedKeys | src/cgem-forge/reconstruction_helpers.py:17-19 | assigning pairs in order gives the keys of the map and of the pairs |
| ReconstructionHelpers.LastAssignmentWins | src/cgem-forge/reconstruction_helpers.py:18-19 | a key gets the value of its last pair |
| ReconstructionHelpers.AssignmentsElsewhere | src/cgem-forge/reconstruction_helpers.py:18-19 | a key no pair mentions keeps its value |
| ReconstructionHelpers.LowerRun | src/cgem-forge/reconstruction_helpers.py:16 | `[a-z]*` is greedy: the run is lower-case and stops at the first other character |
| ReconstructionHelpers.DigitRun | src/cgem-forge/reconstruction_helpers.py:16 | `\d*` is greedy: the run is digits and stops at the first non-digit |
| ReconstructionHelpers.TokenHead | src/cgem-forge/reconstruction_helpers.py:16 | the match at a capital is well formed (a capital, lower-case letters, digits) and fits in the text |
| ReconstructionHelpers.TokenHeadSpan | src/cgem-forge/reconstruction_helpers.py:16 | the match spells the text it covers and cannot be extended |
| ReconstructionHelpers.Tokens | src/cgem-forge/reconstruction_helpers.py:16 | every `findall` token is well formed |
| ReconstructionHelpers.TokensStartAtCapitals | src/cgem-forge/reconstruction_helpers.py:16 | every token is the match at a capital of the formula |
| ReconstructionHelpers.CapitalsStartTokens | src/cgem-forge/reconstruction_helpers.py:16 | every capital of the formula starts a token |
| ReconstructionHelpers.Counted | src/cgem-forge/reconstruction_helpers.py:18-19 | the tokens as (element, count) pairs, count 1 when there are no digits |
| ReconstructionHelpers.ExtractChemicalElements | src/cgem-forge/reconstruction_helpers.py:12-20 | the loop fills the dictionary with `Elements(formula)` |
| ReconstructionHelpers.ElementKeysFromCapitals | src/cgem-forge/reconstruction_helpers.py:16-20 | every key is the element name matched at a capital |
| ReconstructionHelpers.CapitalsGiveElementKeys | src/cgem-forge/reconstruction_helpers.py:16-20 | the element matched at every capital is a key |
| ReconstructionHelpers.ElementCounts | src/cgem-forge/reconstruction_helpers.py:18-19 | an element's value is the count of its last occurrence, 1 without digits; repeats overwrite and are not added |
| ReconstructionHelpers.LastToken | src/cgem-forge/reconstruction_helpers.py:18-19 | the position of the last token naming an element, or -1: no later token names it |
| ReconstructionHelpers.ElementsByLastToken | src/cgem-forge/reconstruction_helpers.py:16-20 | a formula's table holds exactly the elements the formula names, each with the count of its last occurrence |
| ReconstructionHelpers.TableOfMatchingTokens | src/cgem-forge/reconstruction_helpers.py:16-20 | a formula whose tokens name only elements of a table, each last occurrence with that table's count, has that table |
| ReconstructionHelpers.ElementTableIs | src/cgem-forge/reconstruction_helpers.py:16-20 | a formula's table equals a given table exactly when its tokens match that table |
| ReconstructionHelpers.MatchesCo2 | src/cgem-forge/reconstruction_helpers.py:32 | matching the CO2 table means naming only C and O, with last counts 1 and 2 |
| ReconstructionHelpers.MatchesHco3 | src/cgem-forge/reconstruction_helpers.py:44 | matching the HCO3 table means naming only C, H and O, with last counts 1, 1 and 3 |
| ReconstructionHelpers.Co2Formula | src/cgem-forge/reconstruction_helpers.py:23-32 | `is_co2` holds exactly for formulas naming only C and O whose last C has count 1 and last O count 2 |
| ReconstructionHelpers.Hco3Formula | src/cgem-forge/reconstruction_helpers.py:35-44 | `is_hco3` holds exactly for formulas naming only C, H and O whose last C and H have count 1 and last O count 3 |
| ReconstructionHelpers.GetMediumDict | src/cgem-forge/reconstruction_helpers.py:59-65 | ValueError iff the medium has no row; otherwise every key is `EX_<compound>_e` of one of its compounds, every compound gives a key, and every value is 1000 |
| ReconstructionHelpers.GetDictOfMetaboliteIds | src/cgem-forge/reconstruction_helpers.py:79-82 | the loop assigns each entry's `bigg_id` to its `name`, in order, from an empty dictionary |
| ReconstructionHelpers.MetaboliteNames | src/cgem-forge/reconstruction_helpers.py:79-82 | each id maps to the name of its last entry |
| ReconstructionHelpers.AssignNameToMetId | src/cgem-forge/reconstruction_helpers.py:85-93 | IndexError iff the id has no `_`; otherwise the second field's name, or the field itself |
| ReconstructionHelpers.NameOfSecondField | src/cgem-forge/reconstruction_helpers.py:89-93 | the field is the text between the first `_` and the next `_` or the end |
| MediaDb.ExchangeKeys | src/helper_functions.py:28-31 | the keys never repeat, extend what was there, and are exactly the exchange ids of the medium's rows |
| MediaDb.MediumEntries | kubeflow/node_2_micom/get_medium_from_media_db.py:25-31 | ValueError iff the medium has no row; otherwise keys `EX_<compound>_<compartment>` of its rows, distinct, each with `max_uptake`, and nothing else |
| MediaDb.DefaultsAgreeWithHelper | src/helper_functions.py:5-31 | with the defaults, the keys equal those of the helpers' medium dictionary, and both fail on the same media |
| MediaDb.MediumFileLines | src/helper_functions.py:32-35 | the file splits back into one `key<TAB>value` line per entry, in order |
| Reconstruction.WithoutIds | src/microcom/reconstruction.py:47-49 | `remove_reactions` keeps exactly the reactions whose id is not listed, in order, with unique ids kept unique |
| Reconstruction.ShuttlesRemoved | src/microcom/reconstruction.py:39-49 | with unique ids, exactly the reactions that are not shuttles stay, and ids stay unique |
| Reconstruction.CarvemeCompartment | src/microcom/reconstruction.py:118-119 | the result starts with `C_`; an already prefixed compartment is unchanged, any other gets `C_` in front |
| Reconstruction.CarvemeCompartmentIdempotent | src/microcom/reconstruction.py:117-119 | running the rewrite twice is running it once |
| Reconstruction.CarvemeReaction | src/microcom/reconstruction.py:117-119 | the reaction keeps its id, bounds, exchange flag and formula; its compartments are exactly the rewritten compartments of the old ones |
| Reconstruction.CarvemeReactions | src/microcom/reconstruction.py:117-119 | the table keeps its length and order and each reaction is rewritten |
| Reconstruction.PreparedShuttles | src/microcom/reconstruction.py:29-49 | after the rewrite every reaction compartment starts with `C_`, so against allowed names without that prefix a reaction is a shuttle iff it has more than one compartment |
| Reconstruction.CarvemeReactionsValid | src/microcom/reconstruction.py:117-119 | the rewrite keeps ids distinct and every lower bound at most its upper bound |
| Reconstruction.SetBoundsEffect | src/microcom/reconstruction.py:227-228 | setting lower then upper bound fails iff the new lower bound exceeds the old upper one or the new bounds cross; on success both are set; a failing second step leaves the new lower bound; bounds stay ordered |
| Reconstruction.FirstFailing | src/microcom/reconstruction.py:225-237 | the first reaction whose edit raises, or the length: every edit before it succeeds |
| Reconstruction.Sweep | src/microcom/reconstruction.py:225-237 | a loop of edits stops at the first failing one: reactions up to it carry their edits, later ones are untouched, and the error is that edit's |
| Reconstruction.SweptToEnd | src/microcom/reconstruction.py:225-237 | a loop that edited every reaction without error leaves what `Sweep` gives |
| Reconstruction.SweptToFailure | src/microcom/reconstruction.py:225-237 | a loop stopped at a raising edit, with earlier reactions edited and later ones untouched, leaves what `Sweep` gives |
| Reconstruction.SweepFails | src/microcom/reconstruction.py:225-237 | the loop fails iff some reaction's edit raises |
| Reconstruction.SweptValid | src/microcom/reconstruction.py:225-237 | edits that keep ids and ordered bounds leave ids unique and bounds ordered, wherever the loop stops |
| Reconstruction.OpenedOnce | src/microcom/reconstruction.py:149 | opening one reaction fails iff it is an exchange with upper bound below -1000; otherwise an exchange gets lower bound -1000, and opening again changes nothing |
| Reconstruction.OpenExchangesEffect | src/microcom/reconstruction.py:148-149 | opening fails iff some exchange has upper bound below -1000, naming the first; on success exchanges get lower bound -1000, nothing else changes, and opening again changes nothing |
| Reconstruction.ClosedOnce | src/microcom/reconstruction.py:159-160 | closing one reaction fails iff its id starts with `EX_` and its upper bound is negative; otherwise such a reaction gets lower bound 0, and closing again changes nothing |
| Reconstruction.CloseExchangesEffect | src/microcom/reconstruction.py:158-160 | closing fails iff some `EX_` reaction has a negative upper bound, naming the first; on success those get lower bound 0, nothing else changes, and closing again changes nothing |
| Reconstruction.InorganicOpenedRules | src/microcom/reconstruction.py:225-237 | included exchanges and carbon-free formulas get both bounds set, lower first; carbon formulas, CO2 and HCO3 among them, get lower bound 0 and fail iff the upper bound is negative; all else unchanged; only bounds change and stay ordered |
| Reconstruction.InorganicEditKeeps | src/microcom/reconstruction.py:225-237 | the edit keeps every reaction's id and ordered bounds |
| Reconstruction.ExchangeIdsWhere | src/microcom/reconstruction.py:177-207 | an id is listed iff it belongs to an exchange with a formula whose elements pass the test |
| Reconstruction.OrganicIsNotInorganic | src/microcom/reconstruction.py:182-205 | organic iff not inorganic; CO2 and HCO3 are inorganic |
| Reconstruction.ExchangesPartitioned | src/microcom/reconstruction.py:177-207 | with unique ids, an exchange with a formula is in exactly one query, organic iff its formula is organic; any other reaction in neither |
| Reconstruction.FirstIds | src/microcom/reconstruction.py:168 | fails iff some pair is empty (the first one); otherwise each pair's first id, in order |
| Reconstruction.DuplicatesRemoved | src/microcom/reconstruction.py:168-169 | every first id is gone; a second id is removed only when it is also some pair's first id |
| Reconstruction.Gem.constructor | src/microcom/reconstruction.py:20-23 | the model holds the given reactions, with unique ids and ordered bounds, and compartments |
| Reconstruction.Gem.RemoveReactions | src/microcom/reconstruction.py:47-49 | the reactions become `WithoutIds` of the old ones |
| Reconstruction.Gem.RemoveShuttleReactions | src/microcom/reconstruction.py:29-49 | the reactions left are exactly the old non-shuttle ones, in order |
| Reconstruction.Gem.PrepareForCarveme | src/microcom/reconstruction.py:117-119 | each metabolite compartment becomes `CarvemeCompartment` of the old one, so all start with `C_`; every reaction becomes `CarvemeReaction` of the old one, since its compartments come from its metabolites; the table stays valid |
| Reconstruction.Gem.OpenExchanges | src/microcom/reconstruction.py:148-149 | the loop leaves the reactions and the error of `Sweep(OpenedExchange)` of the old ones: it raises at the first exchange whose upper bound is below -1000; ids stay unique and bounds ordered |
| Reconstruction.Gem.CloseExchanges | src/microcom/reconstruction.py:158-160 | the loop leaves the reactions and the error of `Sweep(ClosedExchange)` of the old ones: it raises at the first `EX_` reaction with a negative upper bound; ids stay unique and bounds ordered |
| Reconstruction.Gem.RemoveDuplicatedReactions | src/microcom/reconstruction.py:162-169 | an empty pair raises and changes nothing; otherwise the first ids are removed |
| Reconstruction.Gem.ExchangesWhere | src/microcom/reconstruction.py:177-188 | the loop returns `ExchangeIdsWhere` of the reactions |
| Reconstruction.Gem.GetOrganicExchanges | src/microcom/reconstruction.py:171-188 | the organic exchange ids |
| Reconstruction.Gem.GetInorganicExchanges | src/microcom/reconstruction.py:190-207 | the inorganic exchange ids |
| Reconstruction.Gem.OpenInorganicExchanges | src/microcom/reconstruction.py:209-237 | the loop leaves the reactions and the error of `Sweep` with `InorganicOpened` for the bounds and inclusion list: it raises at the first exchange whose new bounds would cross |
| Reconstruction.InorganicStep | src/microcom/reconstruction.py:226-237 | the loop body computes `InorganicOpened` of the reaction |
| Reconstruction.SetBoundsOf | src/microcom/reconstruction.py:227-228 | the two setter calls compute `SetBounds` |
| Visualization.RowFields | src/cgem-forge/visualization.py:143-149 | the weight cell (or "" without a weight column), then donor, receiver, compound; KeyError iff one is missing |
| Visualization.ContributionsOfRows | src/cgem-forge/visualization.py:142-149 | reading succeeds iff every row has the columns, then one contribution per row, in order |
| Visualization.WithRowWellFormed | src/cgem-forge/visualization.py:150-154 | one row keeps the graph well formed |
| Visualization.BuildWellFormed | src/cgem-forge/visualization.py:142-154 | the whole table gives a well-formed graph |
| Visualization.RowEdgeEffect | src/cgem-forge/visualization.py:150-151 | one row adds donor-to-compound and compound-to-receiver with its weight; other edges keep theirs |
| Visualization.RowNodeEffect | src/cgem-forge/visualization.py:152-154 | a node the row mentions gets the row's attributes, compound role last; other nodes keep theirs |
| Visualization.EdgeUntouched | src/cgem-forge/visualization.py:150-151 | an edge no row adds keeps its weight |
| Visualization.EdgeOfLastRow | src/cgem-forge/visualization.py:143-151 | a repeated edge weighs what the last row adding it says |
| Visualization.EdgesOfRows | src/cgem-forge/visualization.py:150-151 | the edges are the old ones and exactly the rows' two pairs |
| Visualization.NodeUntouched | src/cgem-forge/visualization.py:152-154 | a node no row mentions keeps its presence and attributes |
| Visualization.NodeOfLastRow | src/cgem-forge/visualization.py:152-154 | a node has the attributes from the last row mentioning it: tag 1/"compound" as that row's compound, else 0/"genome" |
| Visualization.NodesOfRows | src/cgem-forge/visualization.py:150-154 | the nodes are the old ones and the ids the rows mention |
| Visualization.EdgeCount | src/cgem-forge/visualization.py:150-151 | each row adds at most two edges |
| Visualization.SmetanaGraphShape | src/cgem-forge/visualization.py:141-158 | one contribution per row, a well-formed graph, at most 2 x rows edges |
| Visualization.SmetanaGraphEdgesAndNodes | src/cgem-forge/visualization.py:141-154 | the edges are exactly the rows' pairs, the nodes exactly the ids mentioned |
| Visualization.NodeHasEdge | src/cgem-forge/visualization.py:150-151 | a node has an edge from the first row that mentions it |
| Visualization.NodeTagged | src/cgem-forge/visualization.py:152-154 | a node carries the tag and group of the last row that mentions it |
| Visualization.SmetanaGraphAttributes | src/cgem-forge/visualization.py:142-154 | no node is isolated, and every node has a tag and the group that goes with it |
| Visualization.AttributedDiGraph.constructor | src/cgem-forge/visualization.py:141 | `nx.DiGraph()` is empty |
| Visualization.AttributedDiGraph.AddEdge | src/cgem-forge/visualization.py:150-151 | the new value is `WithWeightedEdge` of the old |
| Visualization.AttributedDiGraph.AddNode | src/cgem-forge/visualization.py:152-154 | the new value is `WithAttributes` of the old |
| Visualization.GetGraphObjectFromSmetanaTable | src/cgem-forge/visualization.py:129-158 | a fresh graph equal to `SmetanaGraph`, or its KeyError |
| Visualization.BuildAppend | src/cgem-forge/visualization.py:142-154 | one more row is one more step of the build |
| Visualization.ExtractedBaseIsShortestPrefix | src/cgem-forge/visualization.py:96 | for an id without a newline, the base is its shortest non-empty prefix followed by `_` and one of c, h, m, x |
| Visualization.LazyEndFirst | src/cgem-forge/visualization.py:96 | the lazy group ends at the first fitting position |
| Visualization.NoMatchLater | src/cgem-forge/visualization.py:96 | no match at position 0 means no match later |
| Visualization.Bases | src/cgem-forge/visualization.py:96 | a base is listed iff some id's extraction gives it |
| Visualization.MapIndex | src/cgem-forge/visualization.py:107-124 | on success, one new id for each old id |
| Visualization.KeysOf | src/cgem-forge/visualization.py:125 | the ids of the entries, in order |
| Visualization.RenameKeys | src/cgem-forge/visualization.py:125 | `rename(index=mapping)` renames mapped ids and keeps values |
| Visualization.Fluxes.constructor | src/cgem-forge/visualization.py:84 | the Series holds the given index and values |
| Visualization.RenameRxnIdsForEscher | src/cgem-forge/visualization.py:84-126 | returns `EscherRename`; on success the caller's index is replaced in place, on failure it is unchanged |
| Visualization.MapIndexFails | src/cgem-forge/visualization.py:107-124 | mapping fails iff some id has no `_`; otherwise each id is `custom_replace`d |
| Visualization.RenamingRules | src/cgem-forge/visualization.py:97-122 | a unique base is shortened; for a repeated base only `_c` is shortened if present, else only `_m`, else every variant |
| Visualization.FirstPerKeyExtends | src/cgem-forge/visualization.py:125 | grouping only appends entries |
| Visualization.FirstPerKeyDistinct | src/cgem-forge/visualization.py:125 | after `groupby`, no id has two entries |
| Visualization.FirstPerKeyFirst | src/cgem-forge/visualization.py:125 | an id gets the value of its first row |
| Visualization.FirstPerKeyFromRows | src/cgem-forge/visualization.py:125 | every grouped entry is an (id, value) pair of some row |
| Visualization.EscherRenameResult | src/cgem-forge/visualization.py:96-126 | ValueError iff some id has no `_`; otherwise the ids are distinct, each first row's value is kept and every entry comes from a row |
| TaxaTable.Entry | pipelines/kubeflow/node_2_micom/build_taxa_table.py:33 | a row gives (id, (abundance, taxonomy)) or the first missing column |
| TaxaTable.CollectFails | pipelines/kubeflow/node_2_micom/build_taxa_table.py:30-33 | reading fails iff some row lacks a column, with the first such row's first missing column |
| TaxaTable.CollectKeys | pipelines/kubeflow/node_2_micom/build_taxa_table.py:33 | the keys are the old ones and the rows' ids |
| TaxaTable.CollectLastWins | pipelines/kubeflow/node_2_micom/build_taxa_table.py:33 | an id's value comes from its last row |
| TaxaTable.CollectUntouched | pipelines/kubeflow/node_2_micom/build_taxa_table.py:33 | an id no row has keeps its value |
| TaxaTable.AbundanceOfRows | src/build_taxa_table.py:24-27 | fails on a missing column; otherwise maps exactly the file's ids to their last row's abundance and taxonomy |
| TaxaTable.Suffix | pipelines/kubeflow/node_2_micom/build_taxa_table.py:42 | `suffix` is empty, or a dot followed by at least one character and no other dot, shorter than the name |
| TaxaTable.StemSuffix | pipelines/kubeflow/node_2_micom/build_taxa_table.py:43 | the stem and suffix make the name again |
| TaxaTable.GetIdsAndExtensionsFromGemDirectory | pipelines/kubeflow/node_2_micom/build_taxa_table.py:36-44 | the loop gives the (stem, suffix) pairs of the `.xml`/`.json` files, in listing order |
| TaxaTable.ModelFilesListed | src/build_taxa_table.py:35-37 | every pair is a listed model file and every listed model file gives a pair |
| TaxaTable.JoinPath | pipelines/kubeflow/node_2_micom/build_taxa_table.py:57-59 | the name under the folder with one `/`, or the name alone for an empty folder |
| TaxaTable.OutputRow | pipelines/kubeflow/node_2_micom/build_taxa_table.py:55-62 | a row has the five header columns |
| TaxaTable.OutputTable | pipelines/kubeflow/node_2_micom/build_taxa_table.py:54-63 | one five-column row per pair |
| TaxaTable.RowOf | pipelines/kubeflow/node_2_micom/build_taxa_table.py:56-62 | the loop body computes `OutputRow` |
| TaxaTable.BuildOutputTable | pipelines/kubeflow/node_2_micom/build_taxa_table.py:47-63 | the loop returns `OutputTable` |
| TaxaTable.OutputRows | pipelines/kubeflow/node_2_micom/build_taxa_table.py:55-62 | row i is sample, id, abundance and taxonomy or "0"/"Unknown" when absent, and the path under the base path or the GEM folder |
| TaxaTable.PathUnderGemDirectory | src/build_taxa_table.py:47-53 | without a base path, every path is the model file's name under the GEM folder |
| TaxaTable.TableFromFiles | pipelines/kubeflow/node_2_micom/build_taxa_table.py:30-63 | each listed model file's row carries its last abundance row's values, or the defaults |
| TaxaTable.DoubleQuotes | pipelines/kubeflow/node_2_micom/build_taxa_table.py:68-70 | doubling the quotes never shortens a field and leaves a field without quotes unchanged |
| TaxaTable.Fields | pipelines/kubeflow/node_2_micom/build_taxa_table.py:68-70 | each field is written by the writer's quoting rule |
| TaxaTable.WriteOutputTable | pipelines/kubeflow/node_2_micom/build_taxa_table.py:66-70 | the file is the header line then every row's line, in order |
| TaxaTable.LineReadsBack | pipelines/kubeflow/node_2_micom/build_taxa_table.py:68-70 | a row of plain fields reads back from its line by splitting on tabs |
| TaxaTable.HeaderReadsBack | src/build_taxa_table.py:60 | the header line reads back as the five column names |
| Carve.DefaultProcesses | pipeline/node_1_carveme/entrypoint.py:9-11 | at least 1; cpu count - 1 from two processors on, else 1 |
| Carve.ExtendWhen | pipeline/node_1_carveme/entrypoint.py:106-151 | the command grows by the option exactly when its condition holds |
| Carve.ExtendGiven | pipeline/node_1_carveme/entrypoint.py:124-140 | `if value: cmd.extend([flag, value])`: the command grows by the option exactly for a given value |
| Carve.ExtendScore | pipeline/node_1_carveme/entrypoint.py:142-149 | the command grows by the score option exactly when the score differs from its default |
| Carve.ExtendInputType | pipeline/node_1_carveme/entrypoint.py:115-122 | the command grows by the first input type given, by priority |
| Carve.ExtendFormat | pipeline/node_1_carveme/entrypoint.py:127-130 | the command grows by `--cobra` if set, else by `--fbc2` if set |
| Carve.ExtendEnsemble | pipeline/node_1_carveme/entrypoint.py:132-133 | the command grows by `-n <size>` only for a non-zero size |
| Carve.ExtendRun | pipeline/node_1_carveme/entrypoint.py:106-112 | the command grows by exactly the rendered run options |
| Carve.ExtendInput | pipeline/node_1_carveme/entrypoint.py:115-133 | the command grows by exactly the rendered input options |
| Carve.ExtendConstraints | pipeline/node_1_carveme/entrypoint.py:135-140 | the command grows by exactly the rendered constraint options |
| Carve.ExtendScores | pipeline/node_1_carveme/entrypoint.py:142-149 | the command grows by exactly the rendered score options |
| Carve.ExtendLater | pipeline/node_1_carveme/entrypoint.py:115-151 | the command grows by exactly the rendered options after the solver |
| Carve.BuildCarveCommand | pipeline/node_1_carveme/entrypoint.py:100-153 | the command built step by step is `CarveCommand` of the arguments |
| Carve.NameInjective | pipeline/node_1_carveme/entrypoint.py:106-151 | different flags are spelled differently |
| Carve.FlagPresence | pipeline/node_1_carveme/entrypoint.py:106-151 | each flag is in the command iff its condition holds |
| Carve.OneInputType | pipeline/node_1_carveme/entrypoint.py:115-122 | at most one input-type flag |
| Carve.OneFormat | pipeline/node_1_carveme/entrypoint.py:127-130 | never both output formats |
| Carve.CommandStart | pipeline/node_1_carveme/entrypoint.py:103-112 | the command opens with `carve <input> -o <output>`, then `--tsv --processes <n>` iff TSV mode, then the solver |
| Carve.RunRendered | pipeline/node_1_carveme/entrypoint.py:106-112 | how the run options render |
| Strings.Split | pipelines/kubeflow/node_3_visualization/plot_interactions.py:83 | `split` gives at least one field, and no field holds the separator |
| Strings.JoinSplit | pipelines/kubeflow/node_3_visualization/plot_interactions.py:83 | joining the split fields gives back the text |
| Strings.SplitFirstField | src/cgem-forge/reconstruction_helpers.py:89 | the first field is the text before the first separator, the rest the split after it |
| Strings.RemoveAll | pipelines/kubeflow/node_3_visualization/plot_interactions.py:84-85 | `replace(pat, "")` is no longer than the text |
| Strings.RemoveAllAbsent | pipelines/kubeflow/node_3_visualization/plot_interactions.py:84-85 | when the pattern does not occur the text is unchanged |
| Strings.Strip | pipelines/kubeflow/node_3_visualization/plot_interactions.py:83 | `strip()` is a slice of the text that neither starts nor ends with whitespace, and only whitespace (as `str.isspace` defines it) lies before and after the slice |
| Strings.IntToString | pipeline/node_1_carveme/entrypoint.py:109 | `str(n)` is not empty and starts with `-` exactly for a negative n |
| Strings.DigitsValueNatToString | src/cgem-forge/reconstruction_helpers.py:19 | `int` reads back what `str` writes |
| Strings.RSplitOnce | src/cgem-forge/visualization.py:108 | `rsplit("_", 1)` fails iff there is no `_`; otherwise base + `_` + part gives the text back and the part holds no `_` |

## Left out

- I/O is not modelled: opening and reading files, the JSON and cytoscape dumps, the plots and the CSV file of `prepare_for_carveme`. Rows that were read are inputs; written files are results.
- Python's `float()` and float printing are parameters (`parseFloat`, `show`). Fluxes are `real`, so NaN and infinities are not modelled.
- `multiprocessing.cpu_count()` is a parameter of `Carve.DefaultProcesses`. The folder listing is a parameter too, and its order is not modelled (`glob("*")` gives no order).
- Layout, colours, drawing and node ordering in plots are not modelled. `shell_layout` and `edge_subgraph` node order are also left out: the focus set and the extended graph are sets.
- `argparse`, `main`, `subprocess` and the entry points' other steps are not modelled.
- `move_reactions_to_cytoplasm`, `annotate_compounds`, `write`, `add_external_metabolite` and the other methods of the GEM class that call into cobra are not modelled. The same goes for the model library itself, except for its bound setters: as in current cobra, setting a lower bound above the upper bound, or an upper bound below the lower bound, raises ValueError (`Reaction.lower_bound`/`upper_bound`). Older cobra versions moved the other bound instead, with a warning; that behaviour is not modelled.
- Reconstruction.Gem.RemoveReactions: only the reactions are removed. `remove_orphans=True` also removes orphaned metabolites and genes, which the model does not track.
- Reconstruction.Gem.ExchangesWhere: the first metabolite of an exchange is its only one. An exchange without metabolites, which raises IndexError in the source, cannot be stated.
- BipartiteBuilder.BuildPrunesAroundTarget: it assumes that the target taxon is never tagged as a metabolite. The source tests the nodes one at a time over a snapshot of the node list, so a target tagged 1 and not protected is removed when the loop reaches it. Metabolites tested before it have already passed the edge test and stay, and kept metabolites and environmental carbon sources are never removed. Only the unprotected metabolites after the target in node order are then removed, so in that case the result depends on node order.
- TrophicFocus.FocusNodes: the KeyError of `nodes[n]["bipartite"]` on an untagged node is modelled as an error. The node list of the Python lists (with repeats) is a set, since the source makes a `set` of it.
- Visualization.ExtractedBaseIsShortestPrefix: it is stated only for ids without a newline (`.` does not match a newline). The function itself models the newline case.
- Visualization.EscherRenameResult: it states the grouping and its length, not which renamed key each entry gets. That is stated separately by `Visualization.RenameKeys`. pandas' `groupby` sorts the index; the model keeps first-appearance order.
- ReconstructionHelpers: `\d` is taken as ASCII digits and `[A-Z]`/`[a-z]` as ASCII letters. Other Unicode digits are not modelled.
- TaxaTable: `csv.DictReader` short rows (missing values become `None`) are modelled as a missing column. `pathlib` normalisation beyond one `/` between folder and name is not modelled. The CSV writer is modelled for minimal quoting only.
- MediaDb: pandas' `read_csv` type conversion is not modelled; compounds are text.
