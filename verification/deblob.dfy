/** `Apinatomy.deblob`: the normalisation every later step works on. In
    order: drop the `levels` edges that a `next` edge makes redundant,
    collapse the six chains, rename the collapsed predicates, move each
    `topology*` edge's object onto its subject node, then de-duplicate the
    edges ignoring `meta`, sort them, and prune the nodes no edge mentions. */
module Normalise {
  import opened Wrappers
  import opened Text
  import opened Seqs
  import opened Blobs
  import opened Nifstd
  import opened Collapse

  /** The chains `deblob` hands to `simplify`, in order. */
  const Chains: seq<Chain> := [
    [Target, RootOf, Levels],
    [ConveyingLyph, Topology],
    [Conveys, Source, SourceOf],
    [Conveys, Target, SourceOf],
    [CloneOf, InheritedExternal],
    [ConveyingLyph, InheritedExternal]
  ]

  // ---------------------------------------------------------------- levels

  /** The `ematch` selector `obj(ei, m) and pred(ei, 'apinatomy:next')`. */
  predicate NextTo(e: Edge, m: Id)
  {
    ObjIs(e, m) && PredIs(e, Next)
  }

  /** The pre-filter's test, against the blob as it was before the filter. */
  function KeepLevels(b: Blob): Edge -> bool
  {
    (e: Edge) => !PredIs(e, Levels) || (PredIs(e, Levels) && |Ematch(b, NextTo, e.obj)| == 0)
  }

  predicate NotLevels(e: Edge)
  {
    e.pred != Levels
  }

  /** A `levels` edge goes exactly when some `next` edge shares its object;
      the other edges all stay, in their order. */
  function DropLevels(b: Blob): (r: seq<Edge>)
    ensures forall e :: e in r <==>
      e in b.edges && (e.pred == Levels ==> !exists n :: n in b.edges && n.pred == Next && n.obj == e.obj)
    ensures Filter(r, NotLevels) == Filter(b.edges, NotLevels)
  {
    var r := Filter(b.edges, KeepLevels(b));
    assert forall o :: |Ematch(b, NextTo, o)| == 0 <==> !exists n :: n in b.edges && n.pred == Next && n.obj == o by {
      forall o
        ensures |Ematch(b, NextTo, o)| == 0 <==> !exists n :: n in b.edges && n.pred == Next && n.obj == o
      {
        var m := Ematch(b, NextTo, o);
        NonEmptyHasHead(m);
        if n :| n in b.edges && n.pred == Next && n.obj == o {
          assert n in m;
        }
      }
    }
    FilterFilter(b.edges, KeepLevels(b), NotLevels);
    r
  }

  // ---------------------------------------------------------------- rename

  // The collapsed names the rename table lists, spelled through the
  // vocabulary: "apinatomy:target-apinatomy:rootOf-apinatomy:levels" and so on.
  const TargetRootOfLevels := Target + "-" + RootOf + "-" + Levels
  const ConveysSourceSourceOf := Conveys + "-" + Source + "-" + SourceOf
  const ConveysTargetSourceOf := Conveys + "-" + Target + "-" + SourceOf
  const ConveyingLyphTopology := ConveyingLyph + "-" + Topology
  const ConveyingLyphInheritedExternal := ConveyingLyph + "-" + InheritedExternal
  const CloneOfInheritedExternal := CloneOf + "-" + InheritedExternal

  /** The predicates the rename table rewrites. */
  const RenameSources: set<string> := {
    NextChainStartLevels,
    TargetRootOfLevels, ConveysSourceSourceOf, ConveysTargetSourceOf,
    ConveyingLyphTopology,
    ConveyingLyphInheritedExternal, CloneOfInheritedExternal
  }

  /** The predicates the rename table writes. */
  const RenameTargets: set<string> := {Next, NextS, TopologyS, InheritedExternalS}

  /** The four rewrites, applied one after the other to the same edge. */
  function Renamed(p: string): (r: string)
    ensures p !in RenameSources ==> r == p
    ensures p in RenameSources ==> r in RenameTargets
    ensures r !in RenameSources
  {
    var p1 := if p == NextChainStartLevels then Next else p;
    var p2 := if p1 in {TargetRootOfLevels, ConveysSourceSourceOf, ConveysTargetSourceOf} then NextS else p1;
    var p3 := if p2 == ConveyingLyphTopology then TopologyS else p2;
    if p3 in {ConveyingLyphInheritedExternal, CloneOfInheritedExternal} then InheritedExternalS else p3
  }

  /** The rename table covers the name of every chain collapsed: the three
      route chains become `next*`, the topology chain `topology*`, and the two
      external chains `inheritedExternal*`. */
  lemma {:induction false} ChainNamesRenamed()
    ensures Renamed(Join("-", Chains[0])) == NextS
    ensures Renamed(Join("-", Chains[1])) == TopologyS
    ensures Renamed(Join("-", Chains[2])) == NextS
    ensures Renamed(Join("-", Chains[3])) == NextS
    ensures Renamed(Join("-", Chains[4])) == InheritedExternalS
    ensures Renamed(Join("-", Chains[5])) == InheritedExternalS
  {
    ChainJoins();
  }

  /** Each chain, joined, is the collapsed name the rename table spells out. */
  lemma ChainJoins()
    ensures Join("-", Chains[0]) == TargetRootOfLevels
    ensures Join("-", Chains[1]) == ConveyingLyphTopology
    ensures Join("-", Chains[2]) == ConveysSourceSourceOf
    ensures Join("-", Chains[3]) == ConveysTargetSourceOf
    ensures Join("-", Chains[4]) == CloneOfInheritedExternal
    ensures Join("-", Chains[5]) == ConveyingLyphInheritedExternal
  {
    assert Chains[0][1..] == [RootOf, Levels] && Chains[0][1..][1..] == [Levels];
    assert Join("-", Chains[0][1..]) == RootOf + "-" + Levels;
    assert Chains[1][1..] == [Topology];
    assert Chains[2][1..] == [Source, SourceOf] && Chains[2][1..][1..] == [SourceOf];
    assert Join("-", Chains[2][1..]) == Source + "-" + SourceOf;
    assert Chains[3][1..] == [Target, SourceOf] && Chains[3][1..][1..] == [SourceOf];
    assert Join("-", Chains[3][1..]) == Target + "-" + SourceOf;
    assert Chains[4][1..] == [InheritedExternal];
    assert Chains[5][1..] == [InheritedExternal];
  }

  /** No chain's joined name is a predicate of any chain, so every chain
      collapses the edges as they were before `simplify` began. */
  lemma ChainsApart()
    ensures forall k :: 0 <= k < |Chains| ==> NamedApart(Chains, k)
    ensures forall k :: 0 <= k < |Chains| ==> !InChains(Chains, Join("-", Chains[k]))
  {
    ChainJoins();
    var longest := |InheritedExternal|;
    assert forall c, p :: c in Chains && p in c ==> |p| <= longest;
    assert forall k :: 0 <= k < |Chains| ==> |Join("-", Chains[k])| > longest;
  }

  function RenameAll(edges: seq<Edge>): (r: seq<Edge>)
    ensures |r| == |edges|
    ensures forall i :: 0 <= i < |edges| ==> r[i] == edges[i].(pred := Renamed(edges[i].pred))
    ensures forall e :: e in r ==> e.pred !in RenameSources
  {
    seq(|edges|, i requires 0 <= i < |edges| => edges[i].(pred := Renamed(edges[i].pred)))
  }

  // -------------------------------------------------------------- topology

  /** Selects the `topology*` edges leaving `id`. */
  function TopologyFrom(id: Id): Edge -> bool
  {
    (e: Edge) => e.pred == TopologyS && e.sub == id
  }

  /** The topology node `i` ends up with: the object of the last `topology*`
      edge from its id, if the node is the one `nindex` keeps for that id
      (the last node with it), and otherwise what it had. */
  function FinalTopology(nodes: seq<Node>, edges: seq<Edge>, i: nat): Option<Id>
    requires i < |nodes|
  {
    var id := nodes[i].id;
    if LastWhere(nodes, HasId(id)) == Some(i) then
      match LastWhere(edges, TopologyFrom(id))
      case Some(k) => Some(edges[k].obj)
      case None => nodes[i].topology
    else nodes[i].topology
  }

  /** One `topology*` edge: `nindex[sub]['topology'] = obj`, a `KeyError`
      when no node has the subject's id. */
  function SetTopology(nodes: seq<Node>, e: Edge): (r: Result<seq<Node>, Failure>)
  {
    if e.pred != TopologyS then Ok(nodes)
    else match LastWhere(nodes, HasId(e.sub))
      case None => Err(MissingNode(e.sub))
      case Some(i) => Ok(nodes[i := nodes[i].(topology := Some(e.obj))])
  }

  /** The loop over the renamed edges that moves topology onto nodes. Only
      `topology` fields change; each node `nindex` keeps ends up with the
      object of the last `topology*` edge from it (the edges stay). */
  function SetTopologies(nodes: seq<Node>, edges: seq<Edge>): (r: Result<seq<Node>, Failure>)
    ensures r.Err? <==> exists e :: e in edges && e.pred == TopologyS && LastWhere(nodes, HasId(e.sub)).None?
    ensures r.Err? ==> r.error.MissingNode?
    ensures r.Ok? ==> |r.value| == |nodes|
    ensures r.Ok? ==> forall i :: 0 <= i < |nodes| ==>
      r.value[i] == nodes[i].(topology := FinalTopology(nodes, edges, i))
    decreases |edges|
  {
    if |edges| == 0 then Ok(nodes)
    else
      var e := edges[0];
      match SetTopology(nodes, e)
      case Err(f) =>
        assert e in edges;
        Err(f)
      case Ok(next) =>
        var r := SetTopologies(next, edges[1..]);
        SameIds(nodes, next, e);
        assert forall x :: x in edges <==> x == e || x in edges[1..] by {
          assert edges == [e] + edges[1..];
        }
        if r.Ok? then
          forall i | 0 <= i < |nodes|
            ensures r.value[i] == nodes[i].(topology := FinalTopology(nodes, edges, i))
          {
            TopologyStep(nodes, next, edges, i);
          }
          r
        else
          r
  }

  /** Setting a topology keeps every node's id, so `nindex` keeps the same
      positions. */
  lemma SetTopologyIds(nodes: seq<Node>, next: seq<Node>, e: Edge)
    requires SetTopology(nodes, e) == Ok(next)
    ensures |next| == |nodes|
    ensures forall k :: 0 <= k < |nodes| ==> next[k].id == nodes[k].id
  {
    if e.pred == TopologyS {
      var i := LastWhere(nodes, HasId(e.sub)).value;
      assert next == nodes[i := nodes[i].(topology := Some(e.obj))];
    }
  }

  lemma SameIds(nodes: seq<Node>, next: seq<Node>, e: Edge)
    requires SetTopology(nodes, e) == Ok(next)
    ensures |next| == |nodes|
    ensures forall k :: 0 <= k < |nodes| ==> next[k].id == nodes[k].id
    ensures forall id :: LastWhere(next, HasId(id)) == LastWhere(nodes, HasId(id))
  {
    SetTopologyIds(nodes, next, e);
    forall id
      ensures LastWhere(next, HasId(id)) == LastWhere(nodes, HasId(id))
    {
      var p := HasId(id);
      assert forall k :: 0 <= k < |next| ==> p(next[k]) == p(nodes[k]);
      LastWhereAlike(next, p, nodes, p);
    }
  }

  /** One step of the loop: the first edge's update followed by the rest's
      final topologies gives the whole list's final topologies. */
  lemma TopologyStep(nodes: seq<Node>, next: seq<Node>, edges: seq<Edge>, i: nat)
    requires |edges| > 0 && i < |nodes|
    requires SetTopology(nodes, edges[0]) == Ok(next)
    ensures |next| == |nodes|
    ensures next[i].(topology := FinalTopology(next, edges[1..], i)) == nodes[i].(topology := FinalTopology(nodes, edges, i))
  {
    var e := edges[0];
    var id := nodes[i].id;
    SameIds(nodes, next, e);
    LastWhereCons(edges, TopologyFrom(id));
    match LastWhere(edges[1..], TopologyFrom(id))
    case Some(k) =>
      assert edges[1..][k] == edges[k + 1];
    case None =>
  }

  // ----------------------------------------------------- dedup, sort, prune

  /** `sekey`: `ontologyTerms` edges first, then by predicate, subject and
      object (`False < True` as `"0" < "1"`). */
  function EdgeKey(e: Edge): seq<string>
  {
    [if e.pred == OntologyTerms then "0" else "1", e.pred, e.sub, e.obj]
  }

  /** `sorted({frozenset of the non-meta items of d for d in edges}, key=sekey)`. */
  function DedupSorted(edges: seq<Edge>): (r: seq<Edge>)
    ensures Distinct(r)
    ensures forall e :: e in r <==> exists e0 :: e0 in edges && e == Bare(e0)
    ensures SortedBy(r, EdgeKey)
  {
    var t := Triples(edges);
    var r := SortBy(t, EdgeKey);
    DistinctPermutation(r, t);
    assert forall e :: e in r <==> e in t by {
      forall e
        ensures e in r <==> e in t
      {
        assert e in r <==> e in multiset(r);
      }
    }
    r
  }

  /** Whatever order the set was iterated in, the sorted list is the same:
      any list without repeats holding exactly the stripped edges and sorted
      by the key is this one. */
  lemma {:induction false} DedupSortedUnique(edges: seq<Edge>, other: seq<Edge>)
    requires Distinct(other)
    requires forall e :: e in other <==> exists e0 :: e0 in edges && e == Bare(e0)
    requires SortedBy(other, EdgeKey)
    ensures other == DedupSorted(edges)
  {
    var r := DedupSorted(edges);
    forall x, y | x in other && y in other && EdgeKey(x) == EdgeKey(y)
      ensures x == y
    {
      assert x.meta == None && y.meta == None;
      assert EdgeKey(x)[1] == x.pred && EdgeKey(x)[2] == x.sub && EdgeKey(x)[3] == x.obj;
      assert EdgeKey(y)[1] == y.pred && EdgeKey(y)[2] == y.sub && EdgeKey(y)[3] == y.obj;
    }
    SortedUnique(other, r, EdgeKey);
  }

  /** The ids some edge mentions as subject or object: `sos`. */
  function Mentioned(edges: seq<Edge>): set<Id>
  {
    (set e | e in edges :: e.sub) + (set e | e in edges :: e.obj)
  }

  function IdIn(ids: set<Id>): Node -> bool
  {
    (n: Node) => n.id in ids
  }

  /** Keeps, in order, the nodes some edge mentions. */
  function PruneNodes(nodes: seq<Node>, edges: seq<Edge>): (r: seq<Node>)
    ensures forall n :: n in r <==> n in nodes && exists e :: e in edges && (e.sub == n.id || e.obj == n.id)
    ensures forall n :: multiset(r)[n] == if n.id in Mentioned(edges) then multiset(nodes)[n] else 0
  {
    Filter(nodes, IdIn(Mentioned(edges)))
  }

  // ----------------------------------------------------------------- deblob

  /** What `deblob` returns: the normalised blob, and the renamed edge list
      before de-duplication with its `internalIn`, `ontologyTerms` and `next`
      edges. */
  datatype Deblobbed = Deblobbed(blob: Blob, edges: seq<Edge>, somas: seq<Edge>, terms: seq<Edge>, ordering: seq<Edge>)

  function PredFilter(p: string): Edge -> bool
  {
    (e: Edge) => e.pred == p
  }

  /** The edges no step of `deblob` rewrites: predicate in no chain, not a
      chain's name, and neither read nor written by the rename table. */
  function Plain(e: Edge): bool
  {
    Untouched(Chains)(e) && e.pred !in RenameSources && e.pred !in RenameTargets
  }

  /** Renaming keeps the plain edges, in order, and makes none. */
  lemma {:induction false} FilterRenameAll(s: seq<Edge>)
    ensures Filter(RenameAll(s), Plain) == Filter(s, Plain)
    decreases |s|
  {
    if |s| > 0 {
      FilterRenameAll(s[1..]);
      assert RenameAll(s)[1..] == RenameAll(s[1..]);
    }
  }

  /** The plain edges come through the levels filter, the collapse and the
      rename untouched and in order. */
  lemma {:induction false} PlainPreserved(b: Blob, simple: seq<Edge>)
    requires Simplify(Chains, DropLevels(b)) == Ok(simple)
    ensures Filter(RenameAll(simple), Plain) == Filter(b.edges, Plain)
  {
    var kept := DropLevels(b);
    FilterRenameAll(simple);
    FilterFilter(simple, Untouched(Chains), Plain);
    FilterFilter(kept, Untouched(Chains), Plain);
    FilterFilter(kept, NotLevels, Plain);
    FilterFilter(b.edges, NotLevels, Plain);
  }

  /** The shape of `deblob`'s result: the blob's edges are the renamed
      edges stripped of their metadata, without repeats and sorted; every
      node is mentioned by an edge; the soma, term and ordering lists are
      the renamed edges with those predicates. */
  ghost predicate Normalised(d: Deblobbed)
  {
    && Distinct(d.blob.edges) && SortedBy(d.blob.edges, EdgeKey)
    && (forall e :: e in d.blob.edges <==> exists e0 :: e0 in d.edges && e == Bare(e0))
    && (forall n :: n in d.blob.nodes ==> exists e :: e in d.blob.edges && (e.sub == n.id || e.obj == n.id))
    && (forall e :: e in d.somas <==> e in d.edges && e.pred == InternalIn)
    && (forall e :: e in d.terms <==> e in d.edges && e.pred == OntologyTerms)
    && (forall e :: e in d.ordering <==> e in d.edges && e.pred == Next)
  }

  /** The last steps of `deblob` on the renamed edges and the nodes with
      their topologies: de-duplicate and sort the edges, prune the nodes,
      and pick out the soma, term and ordering edges. */
  function Assemble(nodes: seq<Node>, edges: seq<Edge>): (r: Deblobbed)
    ensures r.edges == edges && Normalised(r)
    ensures forall n :: n in r.blob.nodes <==> n in nodes && exists e :: e in r.blob.edges && (e.sub == n.id || e.obj == n.id)
    ensures forall n :: multiset(r.blob.nodes)[n] == if n.id in Mentioned(r.blob.edges) then multiset(nodes)[n] else 0
  {
    var dd := DedupSorted(edges);
    Deblobbed(Blob(PruneNodes(nodes, dd), dd), edges,
      Filter(edges, PredFilter(InternalIn)),
      Filter(edges, PredFilter(OntologyTerms)),
      Filter(edges, PredFilter(Next)))
  }

  /** `Apinatomy.deblob(blob)`: drop the level edges, collapse the chains,
      rename, give the nodes their topologies, then assemble. The renamed
      edges carry no predicate the rename table rewrites, and the edges no
      step touches come through in order. */
  function Deblob(b: Blob): (r: Result<Deblobbed, Failure>)
    ensures r.Ok? ==> Normalised(r.value)
    ensures r.Ok? ==> forall e :: e in r.value.edges ==> e.pred !in RenameSources
    ensures r.Ok? ==> Filter(r.value.edges, Plain) == Filter(b.edges, Plain)
    ensures r.Ok? ==> forall n :: n in r.value.blob.nodes <==>
      (exists i :: 0 <= i < |b.nodes| && n == b.nodes[i].(topology := FinalTopology(b.nodes, r.value.edges, i)))
      && n.id in Mentioned(r.value.blob.edges)
    ensures r.Ok? ==> Simplify(Chains, DropLevels(b)).Ok? && r.value.edges == RenameAll(Simplify(Chains, DropLevels(b)).value)
    ensures r.Err? ==> r.error in {CyclicChainGraph, EmptySubpath} || r.error.MissingNode?
  {
    var simple :- Simplify(Chains, DropLevels(b));
    var renamed := RenameAll(simple);
    PlainPreserved(b, simple);
    var r := Finish(b.nodes, renamed);
    Finished(b, renamed, r);
    r
  }

  /** A path of the `k`-th chain's candidate graph (on the edges the
      `levels` drop leaves) whose edges spell the chain comes out of
      `deblob` as one edge from the path's first node to its last, under the
      chain's renamed name: `next*` for the three route chains, `topology*`
      and `inheritedExternal*` for the others. */
  lemma DeblobCollapses(b: Blob, k: nat, path: Path)
    requires k < |Chains| && SpellsWhole(DropLevels(b), Chains[k], path) && Deblob(b).Ok?
    ensures Edge(path[0], Renamed(Join("-", Chains[k])), path[|Chains[k]|], None) in Deblob(b).value.edges
  {
    JoinedSurvives(DropLevels(b), k, path);
    RenamedIn(Simplify(Chains, DropLevels(b)).value, Edge(path[0], Join("-", Chains[k]), path[|Chains[k]|], None));
  }

  lemma JoinedSurvives(edges: seq<Edge>, k: nat, path: Path)
    requires k < |Chains| && SpellsWhole(edges, Chains[k], path) && Simplify(Chains, edges).Ok?
    ensures Edge(path[0], Join("-", Chains[k]), path[|Chains[k]|], None) in Simplify(Chains, edges).value
  {
    ChainsApart();
    WholePathCollapses(Chains, edges, path, k);
  }

  lemma RenamedIn(simple: seq<Edge>, e: Edge)
    requires e in simple
    ensures e.(pred := Renamed(e.pred)) in RenameAll(simple)
  {
    var i :| 0 <= i < |simple| && simple[i] == e;
    assert RenameAll(simple)[i] == e.(pred := Renamed(e.pred));
  }

  /** What `Finish` promises about the renamed edges, restated for the
      blob `deblob` started from. */
  lemma Finished(b: Blob, renamed: seq<Edge>, r: Result<Deblobbed, Failure>)
    requires forall e :: e in renamed ==> e.pred !in RenameSources
    requires Filter(renamed, Plain) == Filter(b.edges, Plain)
    requires r.Ok? ==> r.value.edges == renamed && Normalised(r.value)
    requires r.Ok? ==> forall n :: n in r.value.blob.nodes <==>
      (exists i :: 0 <= i < |b.nodes| && n == b.nodes[i].(topology := FinalTopology(b.nodes, renamed, i)))
      && n.id in Mentioned(r.value.blob.edges)
    requires r.Err? ==> r.error.MissingNode?
    ensures r.Ok? ==> forall e :: e in r.value.edges ==> e.pred !in RenameSources
    ensures r.Ok? ==> Filter(r.value.edges, Plain) == Filter(b.edges, Plain)
    ensures r.Ok? ==> forall n :: n in r.value.blob.nodes <==>
      (exists i :: 0 <= i < |b.nodes| && n == b.nodes[i].(topology := FinalTopology(b.nodes, r.value.edges, i)))
      && n.id in Mentioned(r.value.blob.edges)
  {
  }

  /** The steps of `deblob` after the renaming: move the topologies onto the
      nodes, then assemble. */
  function Finish(orig: seq<Node>, edges: seq<Edge>): (r: Result<Deblobbed, Failure>)
    ensures r.Ok? ==> r.value.edges == edges && Normalised(r.value)
    ensures r.Ok? ==> forall n :: n in r.value.blob.nodes <==>
      (exists i :: 0 <= i < |orig| && n == orig[i].(topology := FinalTopology(orig, edges, i)))
      && n.id in Mentioned(r.value.blob.edges)
    ensures r.Err? ==> r.error.MissingNode?
  {
    var nodes :- SetTopologies(orig, edges);
    Topologised(orig, edges, nodes);
    Ok(Assemble(nodes, edges))
  }

  /** The nodes after the topology loop are the nodes, each with its final
      topology. */
  lemma Topologised(orig: seq<Node>, edges: seq<Edge>, nodes: seq<Node>)
    requires |nodes| == |orig|
    requires forall i :: 0 <= i < |orig| ==> nodes[i] == orig[i].(topology := FinalTopology(orig, edges, i))
    ensures forall n :: n in nodes <==> exists i :: 0 <= i < |orig| && n == orig[i].(topology := FinalTopology(orig, edges, i))
  {
    forall n | n in nodes
      ensures exists i :: 0 <= i < |orig| && n == orig[i].(topology := FinalTopology(orig, edges, i))
    {
      var i :| 0 <= i < |nodes| && nodes[i] == n;
    }
  }
}
