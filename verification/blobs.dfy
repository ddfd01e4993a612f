/** The blob the engine works on: a list of edge dictionaries
    `{sub, pred, obj[, meta]}` and a list of node dictionaries `{id, ...}`,
    together with the ApiNATOMY vocabulary and the exceptions the engine can
    raise. */
module Blobs {
  import opened Wrappers
  import opened Seqs

  type Id = string

  /** An edge. `meta` is carried along but never inspected. */
  datatype Edge = Edge(sub: Id, pred: string, obj: Id, meta: Option<string>)

  /** The part of a node's `meta` dictionary that is read. */
  datatype NodeMeta = NodeMeta(synonym: Option<seq<string>>, types: Option<seq<string>>)

  /** A node; `topology` is the property normalisation moves onto it. */
  datatype Node = Node(id: Id, lbl: Option<string>, meta: Option<NodeMeta>, topology: Option<Id>)

  datatype Blob = Blob(nodes: seq<Node>, edges: seq<Edge>)

  /** The exceptions the source lets escape. */
  datatype Failure =
    | CyclicChainGraph          // networkx.topological_sort on a chain graph with a cycle
    | EmptySubpath              // zap indexing an empty node list (IndexError)
    | MissingNode(id: Id)       // a node index or node list lookup of an absent id
    | LayersExhausted           // `l, *layer = layer` on an empty list (ValueError)
    | LengthMismatch            // find_region_layer's region/layer count check (ValueError)
    | LayerRegionConflict       // the assertion in layer_regions
    | RecursionLimit            // a hierarchy walk going round a cycle
    | MissingField(name: string) // a node without `meta`, `lbl` or a synonym (KeyError/IndexError)

  /** The edge once its `meta` has been popped. */
  function Bare(e: Edge): Edge
  {
    e.(meta := None)
  }

  /** Every edge with its `meta` popped. */
  function Bares(edges: seq<Edge>): (r: seq<Edge>)
    ensures |r| == |edges|
    ensures forall i :: 0 <= i < |edges| ==> r[i] == Bare(edges[i])
  {
    seq(|edges|, i requires 0 <= i < |edges| => Bare(edges[i]))
  }

  lemma BaresCons(x: Edge, s: seq<Edge>)
    ensures Bares([x] + s) == [Bare(x)] + Bares(s)
  {
    var l := Bares([x] + s);
    var r := [Bare(x)] + Bares(s);
    forall i | 0 <= i < |l|
      ensures l[i] == r[i]
    {
      if i > 0 {
        assert ([x] + s)[i] == s[i - 1];
      }
    }
  }

  /** The edges as triples, each once, in order of first appearance: what an
      rdflib graph or a set of `meta`-less edge dictionaries holds. */
  function Triples(edges: seq<Edge>): (d: seq<Edge>)
    ensures forall e :: e in d <==> exists e0 :: e0 in edges && e == Bare(e0)
    ensures Distinct(d)
    ensures (forall e :: e in edges ==> e.meta == None) && Distinct(edges) ==> d == edges
  {
    var bare := Bares(edges);
    assert (forall e :: e in edges ==> e.meta == None) && Distinct(edges) ==> Dedup(bare) == edges by {
      if (forall e :: e in edges ==> e.meta == None) && Distinct(edges) {
        assert bare == edges;
        DedupDistinct(edges);
      }
    }
    assert forall e :: e in bare <==> exists e0 :: e0 in edges && e == Bare(e0) by {
      forall e | e in bare
        ensures exists e0 :: e0 in edges && e == Bare(e0)
      {
        var i :| 0 <= i < |bare| && bare[i] == e;
        assert edges[i] in edges;
      }
      forall e0 | e0 in edges
        ensures Bare(e0) in bare
      {
        var i :| 0 <= i < |edges| && edges[i] == e0;
        assert bare[i] == Bare(e0);
      }
    }
    Dedup(bare)
  }

  /** `{n['id']: n for n in nodes}` has `id` as a key. */
  predicate HasNode(b: Blob, id: Id)
  {
    exists n :: n in b.nodes && n.id == id
  }

  /** Selects the nodes carrying `id`. */
  function HasId(id: Id): Node -> bool
  {
    (n: Node) => n.id == id
  }

  /** `{n['id']: n for n in nodes}[id]`: the dictionary keeps the last node
      listed with the id; `None` is the `KeyError`. */
  function Index(nodes: seq<Node>, id: Id): (r: Option<Node>)
    ensures r.None? <==> forall n :: n in nodes ==> n.id != id
    ensures r.Some? ==> r.value in nodes && r.value.id == id
    ensures r.Some? ==> exists i :: (0 <= i < |nodes| && nodes[i] == r.value
      && forall j :: i < j < |nodes| ==> nodes[j].id != id)
  {
    match LastWhere(nodes, HasId(id))
    case None => None
    case Some(i) => Some(nodes[i])
  }

  // ApiNATOMY vocabulary
  const Axon := "SAO:280355188"
  const Dendrite := "SAO:420754792"
  const Bag := "apinatomy:BAG"
  const Annotates := "apinatomy:annotates"
  const CloneOf := "apinatomy:cloneOf"
  const EndsIn := "apinatomy:endsIn"
  const OntologyTerms := "apinatomy:ontologyTerms"
  const FasciculatesIn := "apinatomy:fasciculatesIn"
  const InheritedExternal := "apinatomy:inheritedExternal"
  const InheritedExternalS := "apinatomy:inheritedExternal*"
  const InternalIn := "apinatomy:internalIn"
  const LayerIn := "apinatomy:layerIn"
  const Lyphs := "apinatomy:lyphs"
  const Next := "apinatomy:next"
  const NextS := "apinatomy:next*"
  const References := "apinatomy:references"
  const TopologyS := "apinatomy:topology*"
  const Levels := "apinatomy:levels"
  const NextChainStartLevels := "apinatomy:nextChainStartLevels"
  const Target := "apinatomy:target"
  const RootOf := "apinatomy:rootOf"
  const ConveyingLyph := "apinatomy:conveyingLyph"
  const Topology := "apinatomy:topology"
  const Conveys := "apinatomy:conveys"
  const Source := "apinatomy:source"
  const SourceOf := "apinatomy:sourceOf"

  /** The external-term predicates: ontology terms and inherited externals. */
  const ExternalPreds: set<string> := {OntologyTerms, InheritedExternal, InheritedExternalS}

  /** EXCLUDED_LAYERS without its `None` entry, which the model keeps apart as
      `Option.None`. */
  const ExcludedLayers: set<Id> := {
    "UBERON:0000010",  // peripheral nervous system
    "UBERON:0000178",  // blood
    "UBERON:0000468",  // multicellular organism
    "UBERON:0001017",  // central nervous system
    "UBERON:0001359",  // cerebrospinal fluid
    "UBERON:0002318",  // spinal cord white matter
    "UBERON:0003714",  // neural tissue
    "UBERON:0005844",  // spinal cord segment
    "UBERON:0016549"   // cns white matter
  }

  /** `l in EXCLUDED_LAYERS` for a layer that may be `None`. */
  predicate Excluded(l: Option<Id>)
  {
    l.None? || l.value in ExcludedLayers
  }
}
