# map-knowledge: the ApiNATOMY neuron parser, in Dafny

map-knowledge fetches anatomical knowledge from SciCrunch for flatmap
viewers. Its core is `Apinatomy.parse_connectivity`. It takes the SCKAN
graph of one ApiNATOMY neuron population (a *blob*: a list of edge
dictionaries `{sub, pred, obj[, meta]}` and a list of node dictionaries)
and returns the population's paths:

- `connectivity`: pairs of anatomical layers joined by a `next` edge;
- `axons` and `dendrites`: the anatomical layers where the population's
  axon and dendrite terminals lie.

An *anatomical layer* is a region followed by the layers it is refined by.

This project models that parser and what it depends on:

- the `nifstd` edge helpers (`ematch`, `listIn`, `zap`, `simplify`);
- blob normalisation (`deblob`);
- the three hierarchy walks (`reclr`, `find_region`, `find_region_layer`);
- `layer_regions`;
- the terminal search.

It also models the three record builders `neuron_knowledge`,
`model_knowledge` and `phenotypes`, and two pure parts of the SciCrunch
client:

- the `NAMESPACES` prefix table;
- the branch `get_knowledge` takes for an entity.

Modules follow the source:

| File | Module | Contents |
|---|---|---|
| `wrappers.dfy` | `Wrappers` | `Option`/`Result` |
| `text.dfy` | `Text` | joining and splitting strings, lexicographic order |
| `seqs.dfy` | `Seqs` | list comprehensions, dedup, sort, list removal |
| `blobs.dfy` | `Blobs` | the blob, the ApiNATOMY vocabulary, `EXCLUDED_LAYERS`, the exceptions |
| `nifstd.dfy` | `Nifstd` | `sub`/`pred`/`obj`, `ematch`, `listIn` |
| `simplify.dfy` | `Collapse` | `nifstd.zap` and `nifstd.simplify` |
| `collapse_example.dfy` | `CollapseExample` | `simplify` worked through on a three-edge chain |
| `deblob.dfy` | `Normalise` | `Apinatomy.deblob` |
| `hierarchy.dfy` | `Hierarchy` | `isLayer`, `reclr`, `layer_regions`, `find_region`, `find_region_layer` |
| `hierarchy_example.dfy` | `HierarchyExample` | `reclr` worked through on two small hierarchies |
| `connectivity.dfy` | `Connectivity` | terminals, `anatomical_layer`, `parse_connectivity`, the knowledge records, `phenotypes` |
| `scicrunch.dfy` | `SciCrunch` | `NAMESPACES.uri`/`curie`, the dispatch of `get_knowledge` |

The model handles exceptions as follows:

- Every exception the source lets escape is a `Failure` value in a `Result`:
  - a cycle in a chain graph;
  - `zap` on an empty sub-path;
  - a missing node;
  - `l, *layer = layer` on an empty list;
  - the region/layer count check;
  - the assertion in `layer_regions`;
  - endless recursion on a cyclic hierarchy;
  - a node without `meta`, `lbl` or a synonym.
- The `ValueError` that `find_terminal_region_layers` catches becomes an
  empty list there, as in the source.

## Model

| member | source | states |
|---|---|---|
| Blobs.Triples | mapknowledge/apinatomy.py:165-167 | the rdflib graph built from edges holds each `meta`-less triple exactly once, and every triple it holds comes from an edge |
| Blobs.Index | mapknowledge/apinatomy.py:540 | a node-id dictionary lookup fails exactly when no node has the id; otherwise it gives the last node listed with that id |
| Nifstd.Ematch | mapknowledge/apinatomy.py:116-117 | `ematch` keeps exactly the blob's edges the selector accepts, each as often as the blob lists it |
| Nifstd.ListIn | mapknowledge/apinatomy.py:120-139 | a found index is where `maybe_contained` occurs as a contiguous run, and no earlier index is one; a found index implies the strict (or non-strict) length condition; when the length condition holds and nothing is found, the run occurs nowhere |
| Nifstd.ListInFrom | mapknowledge/apinatomy.py:125-139 | searching from the first occurrence of the run's head finds the leftmost occurrence of the run, or shows that there is none |
| Collapse.Candidates | mapknowledge/apinatomy.py:157-158 | the candidates are exactly the edges whose predicate belongs to the chain |
| Collapse.StripChain | mapknowledge/apinatomy.py:159-163 | candidates lose their `meta`; every other edge is left as it is, in place |
| Collapse.Ends | mapknowledge/apinatomy.py:170 | the ends are exactly the objects of candidates carrying the chain's last predicate |
| Collapse.CyclicIff | mapknowledge/apinatomy.py:175 | `topological_sort` fails on the candidate graph exactly when some walk of it returns to its start, so the bounded reachability test is a faithful cycle test |
| Collapse.RankedAcyclic | mapknowledge/apinatomy.py:175 | a graph whose edges all climb a ranking is accepted by the topological sort |
| Collapse.WalksTo | mapknowledge/apinatomy.py:176-179 | the enumerated walks of a given length are exactly the walks of the chain graph of that length that stop at the requested node |
| Collapse.HopsInto | mapknowledge/apinatomy.py:176-179 | every walk enumerated has the requested length and lands on the requested node; every such walk whose last edge is among those still to try is enumerated |
| Collapse.SimplePaths | mapknowledge/apinatomy.py:176-180 | from the enumerated walks, every walk that repeats no node yields its node path, and nothing else is produced |
| Collapse.Neighbours | mapknowledge/apinatomy.py:176-183 | the successors of a node, each once: exactly the nodes an edge leads to from it |
| Collapse.WalkHops | mapknowledge/apinatomy.py:176-179 | the node path of an edge walk hops along edges of the chain graph |
| Collapse.PathsTo | mapknowledge/apinatomy.py:176-180 | a node list is found exactly when it has `len(coll) + 1` nodes, repeats no node, ends at one of the ends and hops along graph edges, as `all_simple_paths` enumerates them |
| Collapse.ConsideredPaths | mapknowledge/apinatomy.py:170-181 | the paths are visited in sorted order; a node list is considered exactly when it is a simple path of the chain's length that hops along graph edges and ends at the object of a final-predicate candidate |
| Collapse.EdgesBetween | mapknowledge/apinatomy.py:182 | exactly the parallel edges from one node to another |
| Collapse.PathEdges | mapknowledge/apinatomy.py:182-183 | `oe2` holds exactly the graph edges that leave a node of the path and land on a node of the path |
| Collapse.CollapseEdges | mapknowledge/apinatomy.py:184-199 | nothing is zapped exactly when the chain does not occur in the path's predicates; otherwise one edge named by the joined chain runs from the leftmost occurrence's first node to the path's end, and the occurrence's edges are removed; the `IndexError` arises exactly when the only occurrences start too late for the path |
| Collapse.ZapNodes | mapknowledge/apinatomy.py:142-151 | `zap` of the sub-path from `i` adds the edge from `path[i]` to the path's end, named by the joined predicates; the sub-path is empty exactly when `i` lies past the chain |
| Collapse.WholeOccurrence | mapknowledge/apinatomy.py:186-187 | predicates equal to the chain are its leftmost occurrence, at 0, so the `predicates == coll` branch agrees with the `listIn` branch |
| Collapse.CollapsePath | mapknowledge/apinatomy.py:182-199 | one path's zap removes only graph edges between nodes of the path; nothing is zapped exactly when the chain does not occur in the path's predicates; when the predicates spell the chain, the joined edge from the first to the last node is added and all of `oe2` removed; otherwise one joined edge ending at the path's end is added and the removed edges spell the chain |
| Collapse.CollapsePaths | mapknowledge/apinatomy.py:181-199 | the loop over the sorted paths succeeds exactly when every path's zap does; every path's additions and removals are in the result, and every added edge is one some path's zap added |
| Collapse.CollapseChain | mapknowledge/apinatomy.py:156-199 | the cyclic-graph failure arises exactly when there are candidates and the candidate graph has a cycle; otherwise the chain succeeds exactly when every considered path's zap does, contains each of them, and adds nothing else; a blob with no candidates is untouched |
| Collapse.CollapseAll | mapknowledge/apinatomy.py:156-199 | processing the chains in turn grows the edge list only by chain-named edges, keeps everything already queued and queues only edges with a chain predicate; for every chain `k` none of whose predicates is the joined name of an earlier chain, that chain's collapse of the input edges succeeds and its additions and removals are in the result |
| Collapse.ChainAlike | mapknowledge/apinatomy.py:157-199 | a chain's collapse depends on its candidates only after their `meta` is popped: two edge lists whose meta-less candidates agree collapse identically |
| Collapse.ChainTransfer | mapknowledge/apinatomy.py:156-199 | after an earlier chain pops `meta` from its candidates and appends edges none of whose predicates is in chain `k`, chain `k` collapses exactly as on the original edges |
| Collapse.LaterChains | mapknowledge/apinatomy.py:156-199 | if the first chain's collapse is in the result and so is every later chain's collapse of the edges the first left behind, then every chain's collapse of the original edges is in the result |
| Collapse.WholePathCollapses | mapknowledge/apinatomy.py:181-202 | for any chain `k` none of whose predicates is the joined name of an earlier chain, a considered path whose edges spell the chain is collapsed: its joined edge from the first to the last node is in `simplify`'s output, and each edge on the path loses a copy |
| Collapse.ChainInSimplify | mapknowledge/apinatomy.py:156-202 | for any chain `k` none of whose predicates is the joined name of an earlier chain: its collapse of the input succeeds, each edge it adds whose predicate is in no chain is in `simplify`'s output, and each edge it removes that no joined chain name names has fewer copies than in the meta-stripped input |
| Collapse.UntouchedSurvive | mapknowledge/apinatomy.py:200-202 | removing the queued edges one occurrence at a time leaves every edge outside all chains in place, in order |
| Collapse.Simplify | mapknowledge/apinatomy.py:153-204 | `simplify` keeps the edges that no chain touches exactly, in order; every other output edge is an input edge stripped of `meta` or a new `meta`-less edge named by a joined chain |
| CollapseExample.LineCollapses | mapknowledge/apinatomy.py:153-204 | three edges in a line whose predicates spell a chain collapse to exactly the one joined edge from the line's first to its last node |
| CollapseExample.ThreeHops | mapknowledge/apinatomy.py:153-204 | `(A, target, B), (B, rootOf, C), (C, levels, D)` under the chain `target, rootOf, levels` becomes exactly `(A, target-rootOf-levels, D)` |
| Normalise.DropLevels | mapknowledge/apinatomy.py:253-260 | a `levels` edge is dropped exactly when a `next` edge points at its object; every other edge stays, in order |
| Normalise.Renamed | mapknowledge/apinatomy.py:274-287 | a predicate due for renaming becomes one of the short names (`next`, `next*`, `topology*`, `inheritedExternal*`); any other predicate is unchanged; no result is itself due for renaming |
| Normalise.ChainNamesRenamed | mapknowledge/apinatomy.py:264-287 | each of the six collapse chains, joined, is renamed to `next*`, `topology*` or `inheritedExternal*` as the source lists |
| Normalise.ChainsApart | mapknowledge/apinatomy.py:264-271 | no chain that `deblob` passes to `simplify` has a joined name that is a predicate of any chain, so every chain's collapse survives the later chains |
| Normalise.DeblobCollapses | mapknowledge/apinatomy.py:246-287 | a path of any of the six chains in the `levels`-filtered input whose edges spell the chain comes out of `deblob` as one edge from its first to its last node under the chain's renamed name (`next*`, `topology*` or `inheritedExternal*`) |
| Normalise.RenameAll | mapknowledge/apinatomy.py:274-287 | renaming changes only the predicate of each edge, in place |
| Normalise.SetTopologies | mapknowledge/apinatomy.py:288-290 | each node's `topology` becomes the object of the last `topology*` edge from it; the `KeyError` arises exactly when such an edge starts at an id with no node |
| Normalise.DedupSorted | mapknowledge/apinatomy.py:299-307 | the edge list after deduplication and sorting holds each `meta`-less edge once, and nothing else, in `sekey` order |
| Normalise.DedupSortedUnique | mapknowledge/apinatomy.py:299-307 | any duplicate-free list of those edges sorted by `sekey` is exactly the list produced, so set iteration order does not matter |
| Normalise.PruneNodes | mapknowledge/apinatomy.py:308-309 | exactly the nodes some edge mentions are kept, each as often as listed |
| Normalise.PlainPreserved | mapknowledge/apinatomy.py:253-287 | edges whose predicate is in no chain, is no chain's joined name, and is neither a source nor a target of the rename table come through the `levels` filter, the collapse and the rename unchanged and in order |
| Normalise.Assemble | mapknowledge/apinatomy.py:299-313 | the returned blob's edges are distinct and sorted triples of the renamed edges; a node is kept exactly when it was given and the blob's edges mention it, as often as it was given; somas, terms and ordering edges are the `internalIn`, `ontologyTerms` and `next` edges |
| Normalise.Finish | mapknowledge/apinatomy.py:288-313 | the returned nodes are exactly the given nodes with their final `topology*` object, kept when the blob's edges mention them; the only failure is a `topology*` edge from a missing node |
| Normalise.Deblob | mapknowledge/apinatomy.py:246-313 | the edges are exactly `simplify` with the six chains applied to the `levels`-filtered input, then renamed, deduplicated and sorted; so no renamed predicate survives and edges no step touches are kept exactly; its nodes are exactly the input nodes, with the topology of their last `topology*` edge, that the final edges mention; failures are a cyclic chain, an empty sub-path or a missing node |
| Hierarchy.IsLayer | mapknowledge/apinatomy.py:316-320 | a node is a layer exactly when some `layerIn` edge leaves it |
| Hierarchy.SkipBads | mapknowledge/apinatomy.py:344-346 | the first layer outside the two bad ids, with the rest after it; the `ValueError` arises exactly when every entry is bad |
| Hierarchy.TakeLayer | mapknowledge/apinatomy.py:342-350 | no pending layer gives `None`; a single one is popped; with several, bad ids are skipped, and all bad is the `ValueError` |
| Hierarchy.AddExternal | mapknowledge/apinatomy.py:337-356 | while collecting, a region is appended with a layer taken from the pending ones; otherwise the external is queued as a layer; a missing node is the `IndexError` |
| Hierarchy.ExtScan | mapknowledge/apinatomy.py:330-356 | scanning for externals keeps every collected entry a term of the blob, and only grows the collection |
| Hierarchy.SelectScan | mapknowledge/apinatomy.py:358-367 | climbing `layerIn`/`fasciculatesIn`/`endsIn`/`internalIn` edges keeps every collected entry a term of the blob and only grows the collection; failures are layer exhaustion, a missing node or the recursion limit |
| Hierarchy.Climb | mapknowledge/apinatomy.py:362-367 | one climb into an object (scan its externals under `col`, then its containment edges) keeps every collected entry a term of the blob and only grows the collection |
| Hierarchy.Reclr | mapknowledge/apinatomy.py:323-370 | every `(layer, region)` pair `reclr` returns names terms of the blob; failures are layer exhaustion, a missing node or a cyclic hierarchy |
| Hierarchy.SelectSkip | mapknowledge/apinatomy.py:358-367 | `select` changes nothing at edges other than the containment edges leaving the node |
| Hierarchy.SelectOne | mapknowledge/apinatomy.py:358-367 | with one containment edge leaving the node, the scan is the climb through it, with `col` set to whether its object is not a layer |
| Hierarchy.ExtSkip | mapknowledge/apinatomy.py:330-356 | `select_ext` changes nothing at edges other than the `cloneOf` and external-term edges leaving the node |
| Hierarchy.ExtOne | mapknowledge/apinatomy.py:330-356 | with one external-term edge leaving the node, the scan adds exactly its term |
| Hierarchy.ReclrUncontained | mapknowledge/apinatomy.py:358-369 | a start with no containment edge leaving it collects no pair |
| HierarchyExample.TowerPairs | mapknowledge/apinatomy.py:323-369 | `s layerIn l`, `l ontologyTerms x`, `l layerIn m`, `m ontologyTerms t` gives exactly `[(x, t)]`: the layer's term is queued and paired with the region's term |
| Hierarchy.AscentClimb | mapknowledge/apinatomy.py:330-367 | on an ascent (one containment edge per lyph into the next, one external term per lyph above the start), climbing from lyph `j` is the reference fold from `j`: add each term in turn, queued under a layer, paired under a region |
| Hierarchy.ReclrAscent | mapknowledge/apinatomy.py:323-370 | `reclr` from the bottom of an ascent of any height returns exactly the pairs the reference fold collects, and fails exactly with the fold's error |
| HierarchyExample.DirectPairs | mapknowledge/apinatomy.py:323-369 | `s internalIn m`, `m ontologyTerms t` gives exactly `[(None, t)]` |
| Hierarchy.Objects | mapknowledge/apinatomy.py:374-379 | the objects of a list of edges, exactly |
| Hierarchy.ObjectsFrom | mapknowledge/apinatomy.py:380-407 | the objects of the selected edges leaving any of the given nodes, exactly |
| Hierarchy.DirectOfStart | mapknowledge/apinatomy.py:374-379 | `direct` holds exactly the containers the start is `internalIn`, `endsIn` or `fasciculatesIn` |
| Hierarchy.LayersOfDirect | mapknowledge/apinatomy.py:380-387 | `layers` is non-empty exactly when a direct container that is a layer has a non-bad term |
| Hierarchy.RegionsOfDirect | mapknowledge/apinatomy.py:401-407 | `regions` is non-empty exactly when a direct container that is not a layer has a term |
| Hierarchy.LayerRegionsOfDirect | mapknowledge/apinatomy.py:389-400 | `lregs` is non-empty exactly when a layer of a direct container has a non-layer term |
| Hierarchy.LayerRegions | mapknowledge/apinatomy.py:373-413 | the result pairs the start with its `reclr` resolution; the assertion fails exactly when `reclr` succeeds and layer terms, layer-region terms and region terms all exist; otherwise `reclr`'s failure passes through |
| Hierarchy.RegionFromUnfold | mapknowledge/apinatomy.py:428-437 | a region reached from a node is either one of its own `ontologyTerms` or reached through a `layerIn`/`fasciculatesIn`/`endsIn` hop |
| Hierarchy.RegionStep | mapknowledge/apinatomy.py:428-437 | one edge of `find_region`'s walk collects only regions reachable from the start and covers everything the edge leads to |
| Hierarchy.RegionWalk | mapknowledge/apinatomy.py:426-438 | the walk collects only reachable regions and covers every edge it scans |
| Hierarchy.RegionWalkExact | mapknowledge/apinatomy.py:426-438 | a node is collected exactly when it is a blob node reachable as a region from the start |
| Hierarchy.FindRegion | mapknowledge/apinatomy.py:426-439 | `find_region` returns exactly the nodes that are regions reachable from the edge's subject; the only failure is a cyclic hierarchy |
| Hierarchy.Bindex | mapknowledge/apinatomy.py:540 | the node index lookup gives a blob node with the id, and fails with the `KeyError` exactly when there is none |
| Hierarchy.TermSelect | mapknowledge/apinatomy.py:448-461 | `select_term` only adds new ids, ontology-term layers to `layers` and inherited externals to `layers_ies`; the `KeyError` arises exactly for a new term with no node |
| Hierarchy.TermScan | mapknowledge/apinatomy.py:448-461 | scanning a layer's terms only adds its terms, keeps the layer lists duplicate-free, and fails only on a missing node |
| Hierarchy.FrlSelect | mapknowledge/apinatomy.py:463-477 | one edge of `find_region_layer`'s walk adds only regions and layers reachable from the start, without duplicates |
| Hierarchy.FrlScan | mapknowledge/apinatomy.py:463-478 | the whole walk adds only reachable regions and layers, without duplicates, only grows the done sets, and marks done everything each scanned edge leads to; failures are a missing node or a cyclic hierarchy |
| Hierarchy.ReachedAll | mapknowledge/apinatomy.py:463-478 | when every edge is covered, every region term and every layer term within reach of the node is marked done |
| Hierarchy.ResolveLayers | mapknowledge/apinatomy.py:480-500 | the layers paired are the chosen layer list minus the excluded layers; the regions paired are the collected regions not among them; the `ValueError` arises exactly when the two counts differ |
| Hierarchy.ResolvedRegions | mapknowledge/apinatomy.py:494 | a collected region is paired exactly when it is not also a chosen layer; paired regions stay distinct |
| Hierarchy.ResolvedLayers | mapknowledge/apinatomy.py:480-490 | paired layers are never excluded; they are ontology-term layers if any, else inherited externals, else a single `None` |
| Hierarchy.FindRegionLayer | mapknowledge/apinatomy.py:442-500 | every region returned is reachable from the edge's subject, every layer is a non-excluded layer term above it, regions are distinct and none is also a layer; failures are a missing node, the count mismatch or a cyclic hierarchy |
| Hierarchy.FindRegionLayerExact | mapknowledge/apinatomy.py:442-500 | the result is the resolution of lists that hold exactly what lies within reach: an id is a collected region iff it is an ontology term within reach, a listed layer iff it is a term of a layer within reach; every region within reach is paired, as a region or as a layer |
| Hierarchy.ResolvedSound | mapknowledge/apinatomy.py:480-500 | what the walk collected, once resolved, meets everything `find_region_layer` promises |
| Hierarchy.RegionLayersAreRegions | mapknowledge/apinatomy.py:426-500 | every region `find_region_layer` pairs is one `find_region` finds |
| Connectivity.BagIff | mapknowledge/apinatomy.py:420-423 | the `ematch` test in `find_terminals` succeeds exactly when a `topology*` edge to `BAG` leaves the node |
| Connectivity.FindTerminals | mapknowledge/apinatomy.py:416-423 | terminals are exactly the `inheritedExternal*` edges to the requested kind whose subject is a bag, each as often as listed |
| Connectivity.TerminalPairsSound | mapknowledge/apinatomy.py:510-511 | every pair the comprehension gathers is a region and layer `find_region_layer` returned for some terminal |
| Connectivity.FindTerminalRegionLayers | mapknowledge/apinatomy.py:508-515 | the pairs come from the terminals of that kind; a count mismatch anywhere gives the empty list; any other failure escapes |
| Connectivity.AlTerms | mapknowledge/apinatomy.py:521-528 | `anatomical_layer`'s filtered list holds exactly the non-excluded layers and regions named in the pairs |
| Connectivity.AnatomicalLayer | mapknowledge/apinatomy.py:520-530 | the result is `None` exactly when every name is excluded; a result never names an excluded layer |
| Connectivity.AnatomicalLayerMembers | mapknowledge/apinatomy.py:520-530 | the region and the layer tuple together name exactly the non-excluded names in the pairs |
| Connectivity.AnatomicalLayerUniform | mapknowledge/apinatomy.py:522-527 | treating the first pair specially makes no difference once `None` is filtered out |
| Connectivity.AnatomicalLayerSingle | mapknowledge/apinatomy.py:546-549 | for one `(layer, region)` pair: both kept give `(layer, (region,))`; an excluded region gives `(layer, ())`; a missing layer gives `(region, ())`; both excluded give `None` |
| Connectivity.TerminalLayers | mapknowledge/apinatomy.py:546-549 | `axons`/`dendrites` hold exactly the anatomical layers of the terminal pairs, none excluded |
| Connectivity.NextPairs | mapknowledge/apinatomy.py:535-537 | `nexts` names exactly the subject/object pairs of `next` and `next*` edges |
| Connectivity.Starts | mapknowledge/apinatomy.py:534 | there are starts exactly when the blob has a `lyphs` edge |
| Connectivity.ResolvePair | mapknowledge/apinatomy.py:538 | a `next` pair resolves exactly when `layer_regions` succeeds on both ends, to their `reclr` resolutions |
| Connectivity.ResolveAll | mapknowledge/apinatomy.py:538 | every pair is resolved, position by position, or a failure of one pair's `layer_regions` escapes |
| Connectivity.ConnectionsAsWritten | mapknowledge/apinatomy.py:550-552 | as written: a connection for every linkable pair of distinct, non-empty raw resolutions with two anatomical layers |
| Connectivity.SelfLoopAsWritten | mapknowledge/apinatomy.py:550-552 | as written: a pair resolving to `[(None, R)]` and `[(X, R)]`, with `X` excluded, yields the self-loop `(R, ()) -> (R, ())` |
| Connectivity.Connections | mapknowledge/apinatomy.py:550-552 | corrected: exactly the connections of linkable pairs whose two anatomical layers differ; never a self-loop, never an excluded layer |
| Connectivity.WrittenExact | mapknowledge/apinatomy.py:534-552 | as written: a pair is in the comprehension exactly when the blob has lyphs and a `next` edge joins its two anatomical layers, a layer joined to itself included |
| Connectivity.ConnectionsExact | mapknowledge/apinatomy.py:534-552 | a connection is reported exactly when the blob has lyphs and a `next` edge joins two different anatomical layers |
| Connectivity.TerminalLayersSound | mapknowledge/apinatomy.py:542-549 | every axon (dendrite) layer is the anatomical layer of a region and layer found for an axon (dendrite) terminal |
| Connectivity.ConnectivityOf | mapknowledge/apinatomy.py:534-555 | the paths of a normalised blob: connections exactly from `next` edges (the corrected set, without self-loops), axons and dendrites from their terminals, no excluded layer; the count mismatch never escapes |
| Connectivity.ParseConnectivity | mapknowledge/apinatomy.py:518-555 | `parse_connectivity` succeeds only when `deblob` does, and then its paths are those of the normalised blob |
| Connectivity.ReferencesOf | mapknowledge/apinatomy.py:577-580 | the objects of the ApiNATOMY neuron's `references` edges, one per edge, in edge order |
| Connectivity.Labels | mapknowledge/apinatomy.py:568-569 | the label is the first synonym, or the neuron id without synonyms, and the long label is `lbl`; a node lacking `meta`, `lbl` or a first synonym raises |
| Connectivity.LabelsOf | mapknowledge/apinatomy.py:562-570 | the labels come from the first node with the neuron's id; no long label exactly when no node has it, and then the label is the id |
| Connectivity.ReferencesFor | mapknowledge/apinatomy.py:571-581 | `references` is present exactly when an `annotates` edge leaves the neuron, and lists the references of the first one's object, one per edge, in edge order |
| Connectivity.NeuronKnowledge | mapknowledge/apinatomy.py:560-583 | the record has the neuron's id, labels, references and parsed paths; it fails exactly when labelling or parsing fails, with that failure |
| Connectivity.PathsOf | mapknowledge/apinatomy.py:593-599 | one path per class node, in node order, each modelling itself |
| Connectivity.ModelKnowledge | mapknowledge/apinatomy.py:586-600 | the model's paths are exactly its `Class` nodes, one each, in node order, each modelling itself |
| Connectivity.Phenotypes | mapknowledge/apinatomy.py:603-614 | one entry per phenotype edge, in edge order, and exactly the objects of the five phenotype predicates |
| Text.SplitFirst | mapknowledge/scicrunch.py:62 | splitting at the first colon gives a colon-free head and the whole remainder, or nothing when there is no colon |
| Text.BeforeFirst | mapknowledge/scicrunch.py:92 | the ontology is the colon-free text before the first colon, or the whole entity |
| SciCrunch.Expand | mapknowledge/scicrunch.py:63-64 | a prefix is known exactly when the table lists it, and then expands to its listed URI |
| SciCrunch.Uri | mapknowledge/scicrunch.py:61-65 | colon-free text is returned unchanged; otherwise the result is the input or begins with a namespace URI |
| SciCrunch.Curie | mapknowledge/scicrunch.py:68-72 | a URI under no namespace is unchanged; otherwise the first namespace it begins with is replaced by `prefix:` |
| SciCrunch.UriExpands | mapknowledge/scicrunch.py:61-65 | `prefix:rest` expands to the namespace URI followed by `rest`, later colons included |
| SciCrunch.UriUnknown | mapknowledge/scicrunch.py:63-65 | an unknown prefix leaves the text unchanged |
| SciCrunch.OnlyNamespace | mapknowledge/scicrunch.py:69-71 | in a well-formed table a string begins with at most one namespace URI, so the first match is the only one |
| SciCrunch.CurieOfUri | mapknowledge/scicrunch.py:61-72 | compacting an expanded name gives it back |
| SciCrunch.UriOfCurie | mapknowledge/scicrunch.py:61-72 | expanding a compacted URI gives it back |
| SciCrunch.NamespacesWellFormed | mapknowledge/scicrunch.py:56-58 | the shipped table is well formed |
| SciCrunch.IlxtrRoundTrip | mapknowledge/scicrunch.py:56-72 | `ilxtr:` names expand to the readable namespace and compact back |
| SciCrunch.IlxtrUriRoundTrip | mapknowledge/scicrunch.py:56-72 | readable-namespace URIs compact and expand back |
| SciCrunch.Route | mapknowledge/scicrunch.py:84-116 | nothing is looked up exactly when there is no API key; InterLex exactly for the InterLex ontologies, connectivity exactly for the connectivity ontologies; the model lookup exactly for other entities starting with the model prefix; the SPARC vocabulary exactly for the rest |
| SciCrunch.ColonFreeRouted | mapknowledge/scicrunch.py:92-116 | an entity without a colon is its own ontology: it goes to InterLex or connectivity when it names one of their ontologies, and to the SPARC vocabulary otherwise, never to the model lookup |
| SciCrunch.RouteByOntology | mapknowledge/scicrunch.py:92-104 | the ontology before the first colon decides the InterLex and connectivity branches, whatever follows it |
| SciCrunch.ModelUrisRouted | mapknowledge/scicrunch.py:92-110 | an ApiNATOMY model URI always reaches the model lookup |
| SciCrunch.CurieRoutesToConnectivity | mapknowledge/scicrunch.py:68-104 | a compacted readable-namespace URI is looked up as a neuron |

## Left out

- The HTTP requests, the SciCrunch API key from the environment, logging
  and `request_json`: `Route` only says which lookup `get_knowledge` makes.
  `NoLookup` stands for the empty record.
- The Cypher query texts (`neurons_for_model_cypher`,
  `phenotype_for_neuron_cypher`), `get_phenotypes` and the
  unknown-entities warning list. They build strings, do I/O or log.
- `deblob(remove_converge=True)`: no caller passes it. Its branch refers
  to an undefined name `top`.
- `find_terminal_regions`: no caller in the core.
- The `neuron` argument of `parse_connectivity` and
  `find_terminal_region_layers`: it only appears in log messages.
- networkx's split of the chain graph into weakly connected components. A
  simple path never leaves its component, so the model enumerates paths
  over the whole chain graph in one sorted pass. This can reorder the
  zaps of different components, but not the set of edges added or removed.
- Iteration orders that Python takes from hashing: rdflib triples, Python
  sets, and the node order of the networkx graph. The model fixes one
  order (first appearance). Results whose order depends on hashing are
  stated as sets (`axons`, `dendrites`, `connectivity`) or sorted (the
  edge list).
- The `nodes` list of `parse_connectivity` repeats each `next` pair once per
  start. The model resolves each pair once and keeps whether there were
  starts, because the result is a set either way.
- Python's recursion limit. The hierarchy walks carry fuel (the number of
  edges plus one) and report `RecursionLimit` when it runs out. This is
  the case only for a hierarchy with a cycle, where the source recurses
  without end.
- Hierarchy.Reclr: its contract states that every pair names terms of the
  blob. Which pairs are collected, and in what order, is stated exactly by
  `ReclrAscent` for a hierarchy that is one ascent of any height (one
  containment edge and one external term per lyph). A lyph with several
  containment edges or several terms is covered only by the scan lemmas.
- Hierarchy.LayerRegions: the dead computations whose lists `layer_regions`
  discards (`regions = lregs if lregs else regions`) matter only through
  the assertion, which the contract states exactly.
- Hierarchy.FindRegionLayer: its own contract states soundness; that every
  region within reach is paired is stated by `FindRegionLayerExact`.
  Reach is bounded by the fuel (edges plus one), which only a cyclic
  hierarchy exhausts.
- Connectivity.ParseConnectivity: axons and dendrites are stated sound,
  not complete, for the same reason. Failures other than the count
  mismatch are not characterised.
- Collapse.Simplify: its contract states what survives untouched and the
  shape of the new edges. That a whole occurrence is collapsed is stated
  by `WholePathCollapses` for any chain none of whose predicates is the
  joined name of an earlier chain, and by the line examples exactly. A partial occurrence
  (the `listIn` branch) is stated only for one path, by `CollapsePath`.
- Collapse.CollapseAll: a chain's collapse is stated only when none of its
  predicates is the joined name of an earlier chain. Otherwise an earlier
  chain's new edges can become the later chain's candidates. `deblob`'s chains
  all meet the condition (`ChainsApart`).
- Collapse.ConsideredPaths: membership is stated in both directions; how
  many times a path is listed (once per start node and end edge that
  reaches it) is not.
- Connectivity.ConnectivityOf / Connectivity.ParseConnectivity: they return
  the corrected connection set (no connection from an anatomical layer to
  itself), not the set the source builds. `WrittenExact` characterises the
  source's set, and the finding below names the difference.
- Connectivity.Labels: `node['meta'].get('synonym', [neuron])[0]` on an
  empty synonym list raises `IndexError`. The model reports it as
  `MissingField`, like the other missing-key errors.

## Findings

| source | as written | input that shows it | evidently intended | confidence | as-written member | corrected member |
|---|---|---|---|---|---|---|
| mapknowledge/apinatomy.py:550-552 | the self-edge test compares the raw `reclr` resolutions (`n0[1:] != n1[1:]`) before they are reduced to anatomical layers | a `next` edge whose ends resolve to `[(None, R)]` and `[(X, R)]`, with `X` in `EXCLUDED_LAYERS` and `R` not: both reduce to `(R, ())`, so `((R, ()), (R, ()))` is reported | no connection joins an anatomical layer to itself (the line's own comment: "This removes self edges") | not executed | Connectivity.SelfLoopAsWritten | Connectivity.Connections |
