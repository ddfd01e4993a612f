/** From a neuron population's knowledge-graph blob to the knowledge record:
    its terminals, the anatomical layers of its axon and dendrite terminals,
    the connections between consecutive lyphs, and the label, references,
    model paths and phenotypes read straight off the blob. */
module Connectivity {
  import opened Wrappers
  import opened Seqs
  import opened Blobs
  import opened Nifstd
  import opened Normalise
  import opened Hierarchy

  // --------------------------------------------------------- find_terminals

  /** The `ematch` selector `sub(e, m) and pred(e, 'apinatomy:topology*')
      and obj(e, 'apinatomy:BAG')`. */
  predicate BagFrom(e: Edge, m: Id)
  {
    SubIs(e, m) && PredIs(e, TopologyS) && ObjIs(e, Bag)
  }

  function TerminalOf(b: Blob, kind: Id): Edge -> bool
  {
    (es: Edge) => PredIs(es, InheritedExternalS) && ObjIs(es, kind) && |Ematch(b, BagFrom, es.sub)| > 0
  }

  lemma BagIff(b: Blob, m: Id)
    ensures |Ematch(b, BagFrom, m)| > 0 <==> exists e :: e in b.edges && e.sub == m && e.pred == TopologyS && e.obj == Bag
  {
    var bags := Ematch(b, BagFrom, m);
    NonEmptyHasHead(bags);
    if e :| e in b.edges && e.sub == m && e.pred == TopologyS && e.obj == Bag {
      assert e in bags;
    }
  }

  /** `Apinatomy.find_terminals(blob, type)`: the `inheritedExternal*` edges
      to `kind` whose subject has a `topology*` edge to a bag, each kept as
      often as the blob lists it. */
  function FindTerminals(b: Blob, kind: Id): (r: seq<Edge>)
    ensures forall es :: es in r <==> (es in b.edges && es.pred == InheritedExternalS && es.obj == kind
      && exists e :: e in b.edges && e.sub == es.sub && e.pred == TopologyS && e.obj == Bag)
    ensures forall es :: multiset(r)[es] == if es in r then multiset(b.edges)[es] else 0
  {
    var r := Filter(b.edges, TerminalOf(b, kind));
    assert forall es :: es in r <==> (es in b.edges && es.pred == InheritedExternalS && es.obj == kind
      && exists e :: e in b.edges && e.sub == es.sub && e.pred == TopologyS && e.obj == Bag) by {
      forall es
        ensures es in r <==> (es in b.edges && es.pred == InheritedExternalS && es.obj == kind
          && exists e :: e in b.edges && e.sub == es.sub && e.pred == TopologyS && e.obj == Bag)
      {
        BagIff(b, es.sub);
      }
    }
    r
  }

  // ----------------------------------------- find_terminal_region_layers

  /** `p` is a (region, layer) pair of the terminal `t`: the region is a
      node and an ontology term above `t`'s subject; the layer, if any, a
      node, not excluded, and a term of a layer above it. */
  ghost predicate PairSound(b: Blob, t: Edge, p: (Node, Option<Node>))
  {
    && p.0 in b.nodes && RegionFrom(b, t.sub, p.0.id, Fuel(b))
    && (p.1.Some? ==>
         p.1.value in b.nodes && p.1.value.id !in ExcludedLayers && LayerFrom(b, t.sub, p.1.value.id, Fuel(b), ExternalPreds))
  }

  lemma PairOfRegionLayer(b: Blob, t: Edge, p: (Node, Option<Node>))
    requires FindRegionLayer(b, t).Ok? && p in FindRegionLayer(b, t).value
    ensures PairSound(b, t, p)
  {
    var r := FindRegionLayer(b, t).value;
    var i :| 0 <= i < |r| && r[i] == p;
    assert Firsts(r)[i] == p.0 && Seconds(r)[i] == p.1;
  }

  /** `find_region_layer` as a function of the terminal. */
  function FrlOf(b: Blob): Edge -> Result<seq<(Node, Option<Node>)>, Failure>
  {
    (t: Edge) => FindRegionLayer(b, t)
  }

  /** Every pair the terminals give is a region/layer pair of one of them. */
  lemma TerminalPairsSound(b: Blob, ts: seq<Edge>)
    requires FlatMapResult(ts, FrlOf(b)).Ok?
    ensures forall p :: p in FlatMapResult(ts, FrlOf(b)).value ==> exists t :: t in ts && PairSound(b, t, p)
  {
    forall p | p in FlatMapResult(ts, FrlOf(b)).value
      ensures exists t :: t in ts && PairSound(b, t, p)
    {
      var k :| 0 <= k < |ts| && FrlOf(b)(ts[k]).Ok? && p in FrlOf(b)(ts[k]).value;
      PairOfRegionLayer(b, ts[k], p);
    }
  }

  /** `Apinatomy.find_terminal_region_layers(neuron, blob, type, bindex)`:
      the pairs of every terminal of `kind`, as `find_region_layer` gives
      them; a length mismatch (the source's `ValueError`, logged as bad
      data) gives no pairs at all, any other error propagates. */
  function FindTerminalRegionLayers(b: Blob, kind: Id): (r: Result<seq<(Node, Option<Node>)>, Failure>)
    ensures r.Ok? ==> forall p :: p in r.value ==> exists t :: t in FindTerminals(b, kind) && PairSound(b, t, p)
    ensures FlatMapResult(FindTerminals(b, kind), FrlOf(b)).Ok? ==> r == FlatMapResult(FindTerminals(b, kind), FrlOf(b))
    ensures FlatMapResult(FindTerminals(b, kind), FrlOf(b)) == Err(LengthMismatch) ==> r == Ok([])
    ensures r.Err? ==> r.error != LengthMismatch && r == FlatMapResult(FindTerminals(b, kind), FrlOf(b))
  {
    var ts := FindTerminals(b, kind);
    match FlatMapResult(ts, FrlOf(b))
    case Ok(ps) =>
      TerminalPairsSound(b, ts);
      Ok(ps)
    case Err(e) => if e == LengthMismatch then Ok([]) else Err(e)
  }

  // -------------------------------------------------------- anatomical_layer

  /** `(layer, region)` as `reclr` and the terminal pairs give them. */
  type LayerRegion = (Option<Id>, Id)

  /** An anatomical layer: the first term and the terms after it. */
  type Al = (Id, seq<Id>)

  /** The terms of `pairs` after the first, each pair giving its layer
      (possibly `None`) and its region. */
  function FlattenRest(pairs: seq<LayerRegion>): (r: seq<Option<Id>>)
    ensures forall x :: Some(x) in r <==> exists p :: p in pairs && (p.0 == Some(x) || p.1 == x)
    decreases |pairs|
  {
    if |pairs| == 0 then []
    else
      var rest := FlattenRest(pairs[1..]);
      assert forall p :: p in pairs <==> p == pairs[0] || p in pairs[1..] by {
        assert pairs == [pairs[0]] + pairs[1..];
      }
      [pairs[0].0, Some(pairs[0].1)] + rest
  }

  /** `anatomical_layer`'s list before filtering: a first pair without a
      layer contributes its region alone. */
  function Flatten(pairs: seq<LayerRegion>): seq<Option<Id>>
    requires |pairs| > 0
  {
    (if pairs[0].0.None? then [Some(pairs[0].1)] else [pairs[0].0, Some(pairs[0].1)]) + FlattenRest(pairs[1..])
  }

  predicate NotExcluded(l: Option<Id>)
  {
    !Excluded(l)
  }

  function Values(s: seq<Option<Id>>): (r: seq<Id>)
    requires forall l :: l in s ==> l.Some?
    ensures |r| == |s| && forall i :: 0 <= i < |s| ==> Some(r[i]) == s[i]
  {
    assert forall i :: 0 <= i < |s| ==> s[i] in s;
    seq(|s|, i requires 0 <= i < |s| => s[i].value)
  }

  /** The terms `anatomical_layer` keeps, in order: its list with `None`
      and the excluded layers filtered out. */
  function AlTerms(pairs: seq<LayerRegion>): (r: seq<Option<Id>>)
    requires |pairs| > 0
    ensures forall l :: l in r ==> l.Some? && l.value !in ExcludedLayers
    ensures forall x :: Some(x) in r <==> x !in ExcludedLayers && exists p :: p in pairs && (p.0 == Some(x) || p.1 == x)
  {
    FlattenMembers(pairs);
    Filter(Flatten(pairs), NotExcluded)
  }

  lemma FlattenMembers(pairs: seq<LayerRegion>)
    requires |pairs| > 0
    ensures forall x :: Some(x) in Flatten(pairs) <==> exists p :: p in pairs && (p.0 == Some(x) || p.1 == x)
  {
    assert pairs == [pairs[0]] + pairs[1..];
  }

  /** No term is kept exactly when every layer and region is excluded. */
  lemma AlTermsEmpty(pairs: seq<LayerRegion>)
    requires |pairs| > 0
    ensures |AlTerms(pairs)| == 0 <==> AllExcluded(pairs)
  {
    var terms := AlTerms(pairs);
    if |terms| > 0 {
      var x := terms[0].value;
      assert Some(x) in terms;
      var p :| p in pairs && (p.0 == Some(x) || p.1 == x);
      assert !(Excluded(p.0) && p.1 in ExcludedLayers);
    } else {
      forall p | p in pairs
        ensures Excluded(p.0) && p.1 in ExcludedLayers
      {
        assert Some(p.1) !in terms;
        if p.0.Some? {
          assert Some(p.0.value) !in terms;
        }
      }
    }
  }

  /** Splitting the kept terms into a head and a tail loses none of them. */
  lemma HeadTail(terms: seq<Option<Id>>)
    requires |terms| > 0 && forall l :: l in terms ==> l.Some?
    ensures forall l :: l in terms[1..] ==> l.Some?
    ensures forall x :: (x == terms[0].value || x in Values(terms[1..])) <==> Some(x) in terms
  {
    assert terms[0] == Some(terms[0].value);
    forall x | Some(x) in terms
      ensures x == terms[0].value || Some(x) in terms[1..]
    {
      var i :| 0 <= i < |terms| && terms[i] == Some(x);
      if i > 0 {
        assert terms[1..][i - 1] == Some(x);
      }
    }
    var tail := Values(terms[1..]);
    forall x | x in tail
      ensures Some(x) in terms[1..]
    {
      var i :| 0 <= i < |tail| && tail[i] == x;
      assert terms[1..][i] == Some(x);
    }
    forall x | Some(x) in terms[1..]
      ensures x in tail
    {
      var i :| 0 <= i < |terms[1..]| && terms[1..][i] == Some(x);
      assert Some(tail[i]) == Some(x);
    }
  }

  /** Every layer and every region of `pairs` is excluded. */
  predicate AllExcluded(pairs: seq<LayerRegion>)
  {
    forall p :: p in pairs ==> Excluded(p.0) && p.1 in ExcludedLayers
  }

  /** `anatomical_layer(pair_list)`: every layer and region of the pairs, in
      order, without those in `EXCLUDED_LAYERS` (which holds `None`); the
      first as the head, the rest as the tail; `None` when none is left.
      `AnatomicalLayerMembers` says which terms it holds. */
  function AnatomicalLayer(pairs: seq<LayerRegion>): (r: Option<Al>)
    requires |pairs| > 0
    ensures r.None? <==> AllExcluded(pairs)
    ensures r.Some? ==> AlKept(r.value)
  {
    var terms := AlTerms(pairs);
    AlTermsEmpty(pairs);
    if |terms| > 0 then
      HeadTail(terms);
      Some((terms[0].value, Values(terms[1..])))
    else
      None
  }

  /** The terms of an anatomical layer are exactly the layers and regions of
      its pairs that are not excluded. */
  lemma AnatomicalLayerMembers(pairs: seq<LayerRegion>)
    requires |pairs| > 0 && AnatomicalLayer(pairs).Some?
    ensures var a := AnatomicalLayer(pairs).value;
      forall x :: (x == a.0 || x in a.1) <==> x !in ExcludedLayers && exists p :: p in pairs && (p.0 == Some(x) || p.1 == x)
  {
    var terms := AlTerms(pairs);
    assert |terms| > 0;
    HeadTail(terms);
    assert AnatomicalLayer(pairs).value == (terms[0].value, Values(terms[1..]));
  }

  /** Every term of an anatomical layer is kept. */
  predicate AlKept(a: Al)
  {
    a.0 !in ExcludedLayers && forall x :: x in a.1 ==> x !in ExcludedLayers
  }

  /** The special case for a first pair without a layer changes nothing: the
      layer it would add is `None`, which the filter drops anyway. */
  lemma {:induction false} AnatomicalLayerUniform(pairs: seq<LayerRegion>)
    requires |pairs| > 0
    ensures Filter(Flatten(pairs), NotExcluded) == Filter(FlattenRest(pairs), NotExcluded)
  {
    if pairs[0].0.None? {
      assert FlattenRest(pairs) == [pairs[0].0] + Flatten(pairs);
      FilterDrop(pairs[0].0, Flatten(pairs), NotExcluded);
    } else {
      assert FlattenRest(pairs) == Flatten(pairs);
    }
  }

  /** The kept terms of a single pair: its layer unless excluded, then its
      region unless excluded. */
  lemma AlTermsSingle(l: Option<Id>, reg: Id)
    ensures AlTerms([(l, reg)]) == (if Excluded(l) then [] else [l]) + (if reg in ExcludedLayers then [] else [Some(reg)])
  {
    var pairs := [(l, reg)];
    assert FlattenRest(pairs[1..]) == [];
    FilterOne(Some(reg), NotExcluded);
    if l.None? {
      assert Flatten(pairs) == [Some(reg)];
    } else {
      assert Flatten(pairs) == [l] + [Some(reg)];
      FilterAppend([l], [Some(reg)], NotExcluded);
      FilterOne(l, NotExcluded);
    }
  }

  /** A terminal's single pair: a kept layer comes first and its region
      follows unless excluded; without a kept layer the region stands alone,
      and nothing is emitted when the region is excluded too. */
  lemma AnatomicalLayerSingle(l: Option<Id>, reg: Id)
    ensures !Excluded(l) && reg !in ExcludedLayers ==> AnatomicalLayer([(l, reg)]) == Some((l.value, [reg]))
    ensures !Excluded(l) && reg in ExcludedLayers ==> AnatomicalLayer([(l, reg)]) == Some((l.value, []))
    ensures Excluded(l) && reg !in ExcludedLayers ==> AnatomicalLayer([(l, reg)]) == Some((reg, []))
    ensures Excluded(l) && reg in ExcludedLayers ==> AnatomicalLayer([(l, reg)]).None?
  {
    if Excluded(l) {
      SingleDropped(l, reg);
    } else {
      SingleKept(l, reg);
    }
  }

  lemma SingleKept(l: Option<Id>, reg: Id)
    requires !Excluded(l)
    ensures AnatomicalLayer([(l, reg)]) == Some((l.value, if reg in ExcludedLayers then [] else [reg]))
  {
    var terms := AlTerms([(l, reg)]);
    AlTermsSingle(l, reg);
    assert terms[0] == l;
    if reg in ExcludedLayers {
      assert |terms[1..]| == 0;
    } else {
      assert terms[1..] == [Some(reg)];
      assert Values(terms[1..]) == [reg];
    }
  }

  lemma SingleDropped(l: Option<Id>, reg: Id)
    requires Excluded(l)
    ensures AnatomicalLayer([(l, reg)]) == if reg in ExcludedLayers then None else Some((reg, []))
  {
    var terms := AlTerms([(l, reg)]);
    AlTermsSingle(l, reg);
    if reg !in ExcludedLayers {
      assert |terms[1..]| == 0;
    }
  }

  // ----------------------------------------------------- parse_connectivity

  /** The raw layer/region tuple `parse_connectivity` reads off a terminal pair. */
  function Raw(p: (Node, Option<Node>)): LayerRegion
  {
    (if p.1.Some? then Some(p.1.value.id) else None, p.0.id)
  }

  /** The anatomical layers of terminal pairs, `None` results dropped,
      duplicates merged. */
  function TerminalLayers(ps: seq<(Node, Option<Node>)>): (r: set<Al>)
    ensures forall a :: a in r <==> exists p :: p in ps && AnatomicalLayer([Raw(p)]) == Some(a)
    ensures forall a :: a in r ==> AlKept(a)
  {
    set p | p in ps && AnatomicalLayer([Raw(p)]).Some? :: AnatomicalLayer([Raw(p)]).value
  }

  /** A `layer_regions` result: the lyph and its (layer, region) pairs. */
  type Resolution = (Id, seq<LayerRegion>)

  /** `nifstd.ematch(blob, lambda e, m: pred(e, next) or pred(e, next*), None)`,
      as (subject, object) pairs. */
  function NextPairs(b: Blob): (r: seq<(Id, Id)>)
    ensures forall q :: q in r <==> exists e :: e in b.edges && (e.pred == Next || e.pred == NextS) && q == (e.sub, e.obj)
  {
    var es := Filter(b.edges, (e: Edge) => PredIs(e, Next) || PredIs(e, NextS));
    var r := seq(|es|, i requires 0 <= i < |es| => (es[i].sub, es[i].obj));
    assert forall q :: q in r <==> exists e :: e in es && q == (e.sub, e.obj) by {
      forall q | q in r
        ensures exists e :: e in es && q == (e.sub, e.obj)
      {
        var i :| 0 <= i < |r| && r[i] == q;
        assert es[i] in es;
      }
      forall e | e in es
        ensures (e.sub, e.obj) in r
      {
        var i :| 0 <= i < |es| && es[i] == e;
        assert r[i] == (e.sub, e.obj);
      }
    }
    r
  }

  /** The objects of the `lyphs` edges. */
  function Starts(b: Blob): (r: seq<Id>)
    ensures |r| > 0 <==> exists e :: e in b.edges && e.pred == Lyphs
  {
    var es := Filter(b.edges, PredFilter(Lyphs));
    NonEmptyHasHead(es);
    seq(|es|, i requires 0 <= i < |es| => es[i].obj)
  }

  /** `layer_regions` of the subject and then of the object of a pair; the
      first failure is the result. */
  function ResolvePair(b: Blob, q: (Id, Id)): (r: Result<(Resolution, Resolution), Failure>)
    ensures r.Ok? <==> LayerRegions(b, q.0).Ok? && LayerRegions(b, q.1).Ok?
    ensures r.Ok? ==> r.value == ((q.0, Reclr(b, q.0).value), (q.1, Reclr(b, q.1).value))
    ensures r.Err? ==> r.error != LengthMismatch
  {
    var n0 :- LayerRegions(b, q.0);
    var n1 :- LayerRegions(b, q.1);
    Ok((n0, n1))
  }

  /** The node pairs of `nexts`, resolved in order; the first failure is
      the result. */
  function ResolveAll(b: Blob, nexts: seq<(Id, Id)>): (r: Result<seq<(Resolution, Resolution)>, Failure>)
    ensures r.Ok? ==> |r.value| == |nexts| && forall i :: 0 <= i < |nexts| ==> Resolves(b, nexts[i], r.value[i])
    ensures r.Err? ==> (r.error != LengthMismatch
      && exists k :: 0 <= k < |nexts| && ResolvePair(b, nexts[k]) == Err(r.error))
  {
    if |nexts| == 0 then Ok([])
    else
      var n :- ResolvePair(b, nexts[0]);
      ResolvesOk(b, nexts[0], n);
      var rest :- ResolveAll(b, nexts[1..]);
      ResolveAllCons(b, nexts, n, rest);
      Ok([n] + rest)
  }

  lemma ResolveAllCons(b: Blob, nexts: seq<(Id, Id)>, n: (Resolution, Resolution), rest: seq<(Resolution, Resolution)>)
    requires |nexts| > 0 && Resolves(b, nexts[0], n)
    requires |rest| == |nexts| - 1 && forall i :: 0 <= i < |rest| ==> Resolves(b, nexts[1..][i], rest[i])
    ensures forall i :: 0 <= i < |nexts| ==> Resolves(b, nexts[i], ([n] + rest)[i])
  {
    forall i | 0 <= i < |nexts|
      ensures Resolves(b, nexts[i], ([n] + rest)[i])
    {
      if i > 0 {
        assert nexts[i] == nexts[1..][i - 1];
        assert ([n] + rest)[i] == rest[i - 1];
      }
    }
  }

  lemma ResolvesOk(b: Blob, q: (Id, Id), n: (Resolution, Resolution))
    requires ResolvePair(b, q) == Ok(n)
    ensures Resolves(b, q, n)
  {
  }

  /** `n` is what `layer_regions` gives for the two ends of `q`. */
  ghost predicate Resolves(b: Blob, q: (Id, Id), n: (Resolution, Resolution))
  {
    Reclr(b, q.0).Ok? && Reclr(b, q.1).Ok? && n == ((q.0, Reclr(b, q.0).value), (q.1, Reclr(b, q.1).value))
  }

  /** The node pairs `parse_connectivity` turns into connections: raw
      resolutions that differ, neither empty. */
  predicate Linkable(n: (Resolution, Resolution))
  {
    n.0.1 != n.1.1 && |n.0.1| > 0 && |n.1.1| > 0
  }

  /** The linkable node pair `n` reduces to the connection `c`: the
      anatomical layers of its two resolutions. */
  predicate LinksAs(n: (Resolution, Resolution), c: (Al, Al))
  {
    Linkable(n) && AnatomicalLayer(n.0.1) == Some(c.0) && AnatomicalLayer(n.1.1) == Some(c.1)
  }

  /** The `connectivity` comprehension as the source writes it: the
      anatomical layers of linkable node pairs, pairs with a `None` side
      dropped. Two different raw resolutions can reduce to the same
      anatomical layer, and then the pair connects a layer to itself. */
  function ConnectionsAsWritten(nodes: set<(Resolution, Resolution)>): (r: set<(Al, Al)>)
    ensures forall c :: c in r <==> exists n :: n in nodes && LinksAs(n, c)
  {
    var r := set n | n in nodes && Linkable(n) && AnatomicalLayer(n.0.1).Some? && AnatomicalLayer(n.1.1).Some?
      :: (AnatomicalLayer(n.0.1).value, AnatomicalLayer(n.1.1).value);
    assert forall c :: c in r <==> exists n :: n in nodes && LinksAs(n, c) by {
      forall c | c in r
        ensures exists n :: n in nodes && LinksAs(n, c)
      {
        var n :| n in nodes && Linkable(n) && AnatomicalLayer(n.0.1).Some? && AnatomicalLayer(n.1.1).Some?
          && c == (AnatomicalLayer(n.0.1).value, AnatomicalLayer(n.1.1).value);
        assert LinksAs(n, c);
      }
      forall c, n | n in nodes && LinksAs(n, c)
        ensures c in r
      {
        assert c == (AnatomicalLayer(n.0.1).value, AnatomicalLayer(n.1.1).value);
      }
    }
    r
  }

  /** The pair behind the self-connection below reduces to one layer twice. */
  lemma SelfLoopLinks(s0: Id, s1: Id, reg: Id, x: Id)
    requires reg !in ExcludedLayers && x in ExcludedLayers
    ensures LinksAs(((s0, [(None, reg)]), (s1, [(Some(x), reg)])), ((reg, []), (reg, [])))
  {
    AnatomicalLayerSingle(None, reg);
    AnatomicalLayerSingle(Some(x), reg);
    assert [(None, reg)][0] != [(Some(x), reg)][0];
  }

  /** A linkable pair the source keeps as a self-connection: a region `reg`
      reached once without a layer, and once inside an excluded layer `x`
      (say `UBERON:0000010`, the peripheral nervous system). */
  lemma SelfLoopAsWritten(s0: Id, s1: Id, reg: Id, x: Id)
    requires reg !in ExcludedLayers && x in ExcludedLayers
    ensures var n := ((s0, [(None, reg)]), (s1, [(Some(x), reg)]));
      Linkable(n) && ((reg, []), (reg, [])) in ConnectionsAsWritten({n})
  {
    var n: (Resolution, Resolution) := ((s0, [(None, reg)]), (s1, [(Some(x), reg)]));
    SelfLoopLinks(s0, s1, reg, x);
    WrittenOf({n}, n, ((reg, []), (reg, [])));
  }

  lemma WrittenOf(nodes: set<(Resolution, Resolution)>, n: (Resolution, Resolution), c: (Al, Al))
    requires n in nodes && LinksAs(n, c)
    ensures Linkable(n) && c in ConnectionsAsWritten(nodes)
  {
  }

  /** The connections with the self-edges removed, as the comment at the
      comprehension intends: linkable node pairs whose anatomical layers
      both exist and differ. */
  function Connections(nodes: set<(Resolution, Resolution)>): (r: set<(Al, Al)>)
    ensures forall c :: c in r <==> c.0 != c.1 && exists n :: n in nodes && LinksAs(n, c)
    ensures forall c :: c in r ==> c in ConnectionsAsWritten(nodes)
    ensures forall c :: c in r ==> c.0 != c.1 && AlKept(c.0) && AlKept(c.1)
  {
    set c | c in ConnectionsAsWritten(nodes) && c.0 != c.1
  }

  /** The record `parse_connectivity` returns, with its lists as the sets
      they are built from. */
  datatype Paths = Paths(axons: set<Al>, dendrites: set<Al>, connectivity: set<(Al, Al)>)

  /** `a` is the anatomical layer of a (region, layer) pair of a terminal of `kind`. */
  ghost predicate TerminalLayer(b: Blob, kind: Id, a: Al)
  {
    exists t, p :: t in FindTerminals(b, kind) && PairSound(b, t, p) && AnatomicalLayer([Raw(p)]) == Some(a)
  }

  /** `c` joins the anatomical layers of the two ends of a `next` edge of the
      blob, whose raw resolutions differ and are non-empty. */
  ghost predicate NextConnects(b: Blob, c: (Al, Al))
  {
    exists e :: e in b.edges && (e.pred == Next || e.pred == NextS)
      && Reclr(b, e.sub).Ok? && Reclr(b, e.obj).Ok?
      && LinksAs(((e.sub, Reclr(b, e.sub).value), (e.obj, Reclr(b, e.obj).value)), c)
  }

  /** What `parse_connectivity` promises of its paths on the normalised blob
      `b`: connections come from the `next` edges (only when there are
      lyphs), axons and dendrites from the terminals of each kind; nothing
      emitted names an excluded layer and no connection joins a layer to
      itself. */
  ghost predicate Parsed(b: Blob, p: Paths)
  {
    && (forall c :: c in p.connectivity <==> |Starts(b)| > 0 && c.0 != c.1 && NextConnects(b, c))
    && (forall a :: a in p.axons ==> TerminalLayer(b, Axon, a))
    && (forall a :: a in p.dendrites ==> TerminalLayer(b, Dendrite, a))
    && (forall a :: a in p.axons || a in p.dendrites ==> AlKept(a))
    && (forall c :: c in p.connectivity ==> AlKept(c.0) && AlKept(c.1) && c.0 != c.1)
  }

  /** `Apinatomy.parse_connectivity(neuron, data)`: `deblob`, then the paths
      of the normalised blob. */
  function ParseConnectivity(data: Blob): (r: Result<Paths, Failure>)
    ensures r.Ok? ==> Normalise.Deblob(data).Ok? && Parsed(Normalise.Deblob(data).value.blob, r.value)
    ensures r.Err? ==> r.error != LengthMismatch
  {
    var d :- Normalise.Deblob(data);
    ConnectivityOf(d.blob)
  }

  /** `parse_connectivity` after `deblob`, on the normalised blob `b`. */
  function ConnectivityOf(b: Blob): (r: Result<Paths, Failure>)
    ensures r.Ok? ==> Parsed(b, r.value)
    ensures r.Err? ==> r.error != LengthMismatch
  {
    var nexts := if |Starts(b)| > 0 then NextPairs(b) else [];
    var resolved :- ResolveAll(b, nexts);
    var axons :- FindTerminalRegionLayers(b, Axon);
    var dendrites :- FindTerminalRegionLayers(b, Dendrite);
    var nodes := set n | n in resolved;
    ConnectionsExact(b, |Starts(b)| > 0, nexts, resolved, nodes);
    TerminalLayersSound(b, Axon, axons);
    TerminalLayersSound(b, Dendrite, dendrites);
    Ok(Paths(TerminalLayers(axons), TerminalLayers(dendrites), Connections(nodes)))
  }

  lemma ConnectionsExact(b: Blob, lyphs: bool, nexts: seq<(Id, Id)>, resolved: seq<(Resolution, Resolution)>, nodes: set<(Resolution, Resolution)>)
    requires nexts == if lyphs then NextPairs(b) else []
    requires |resolved| == |nexts| && forall i :: 0 <= i < |nexts| ==> Resolves(b, nexts[i], resolved[i])
    requires forall n :: n in nodes <==> n in resolved
    ensures forall c :: c in Connections(nodes) <==> lyphs && c.0 != c.1 && NextConnects(b, c)
  {
    WrittenExact(b, lyphs, nexts, resolved, nodes);
  }

  /** The source's own comprehension over the resolved `next` pairs holds
      exactly the pairs some `next` edge connects (when there are lyphs),
      the pairs joining a layer to itself included. */
  lemma WrittenExact(b: Blob, lyphs: bool, nexts: seq<(Id, Id)>, resolved: seq<(Resolution, Resolution)>, nodes: set<(Resolution, Resolution)>)
    requires nexts == if lyphs then NextPairs(b) else []
    requires |resolved| == |nexts| && forall i :: 0 <= i < |nexts| ==> Resolves(b, nexts[i], resolved[i])
    requires forall n :: n in nodes <==> n in resolved
    ensures forall c :: c in ConnectionsAsWritten(nodes) <==> lyphs && NextConnects(b, c)
  {
    forall c
      ensures c in ConnectionsAsWritten(nodes) <==> lyphs && NextConnects(b, c)
    {
      if c in ConnectionsAsWritten(nodes) {
        ConnectionSound(b, lyphs, nexts, resolved, nodes, c);
      }
      if lyphs && NextConnects(b, c) {
        ConnectionComplete(b, nexts, resolved, nodes, c);
      }
    }
  }

  lemma ConnectionSound(b: Blob, lyphs: bool, nexts: seq<(Id, Id)>, resolved: seq<(Resolution, Resolution)>, nodes: set<(Resolution, Resolution)>, c: (Al, Al))
    requires nexts == if lyphs then NextPairs(b) else []
    requires |resolved| == |nexts| && forall i :: 0 <= i < |nexts| ==> Resolves(b, nexts[i], resolved[i])
    requires forall n :: n in nodes <==> n in resolved
    requires c in ConnectionsAsWritten(nodes)
    ensures lyphs && NextConnects(b, c)
  {
    var n := ConnectionWitness(nodes, c);
    var i :| 0 <= i < |resolved| && resolved[i] == n;
    var q := nexts[i];
    assert Resolves(b, q, n);
    var e := NextPairEdge(b, q);
    assert n == ((e.sub, Reclr(b, e.sub).value), (e.obj, Reclr(b, e.obj).value));
  }

  lemma ConnectionWitness(nodes: set<(Resolution, Resolution)>, c: (Al, Al)) returns (n: (Resolution, Resolution))
    requires c in ConnectionsAsWritten(nodes)
    ensures n in nodes && LinksAs(n, c)
  {
    n :| n in nodes && LinksAs(n, c);
  }

  lemma NextPairEdge(b: Blob, q: (Id, Id)) returns (e: Edge)
    requires q in NextPairs(b)
    ensures e in b.edges && (e.pred == Next || e.pred == NextS) && q == (e.sub, e.obj)
  {
    e :| e in b.edges && (e.pred == Next || e.pred == NextS) && q == (e.sub, e.obj);
  }

  lemma NextPairOf(b: Blob, e: Edge)
    requires e in b.edges && (e.pred == Next || e.pred == NextS)
    ensures (e.sub, e.obj) in NextPairs(b)
  {
  }

  lemma ConnectionComplete(b: Blob, nexts: seq<(Id, Id)>, resolved: seq<(Resolution, Resolution)>, nodes: set<(Resolution, Resolution)>, c: (Al, Al))
    requires nexts == NextPairs(b)
    requires |resolved| == |nexts| && forall i :: 0 <= i < |nexts| ==> Resolves(b, nexts[i], resolved[i])
    requires forall n :: n in nodes <==> n in resolved
    requires NextConnects(b, c)
    ensures c in ConnectionsAsWritten(nodes)
  {
    var e := NextConnectsEdge(b, c);
    NextPairOf(b, e);
    var i :| 0 <= i < |nexts| && nexts[i] == (e.sub, e.obj);
    var n := resolved[i];
    assert Resolves(b, nexts[i], n);
    assert n in nodes;
    WrittenOf(nodes, n, c);
  }

  lemma NextConnectsEdge(b: Blob, c: (Al, Al)) returns (e: Edge)
    requires NextConnects(b, c)
    ensures e in b.edges && (e.pred == Next || e.pred == NextS) && Reclr(b, e.sub).Ok? && Reclr(b, e.obj).Ok?
    ensures LinksAs(((e.sub, Reclr(b, e.sub).value), (e.obj, Reclr(b, e.obj).value)), c)
  {
    e :| e in b.edges && (e.pred == Next || e.pred == NextS)
      && Reclr(b, e.sub).Ok? && Reclr(b, e.obj).Ok?
      && LinksAs(((e.sub, Reclr(b, e.sub).value), (e.obj, Reclr(b, e.obj).value)), c);
  }

  lemma TerminalLayersSound(b: Blob, kind: Id, ps: seq<(Node, Option<Node>)>)
    requires forall p :: p in ps ==> exists t :: t in FindTerminals(b, kind) && PairSound(b, t, p)
    ensures forall a :: a in TerminalLayers(ps) ==> TerminalLayer(b, kind, a)
  {
    forall a | a in TerminalLayers(ps)
      ensures TerminalLayer(b, kind, a)
    {
      var p :| p in ps && AnatomicalLayer([Raw(p)]) == Some(a);
      var t :| t in FindTerminals(b, kind) && PairSound(b, t, p);
    }
  }

  // ------------------------------------------------------- neuron_knowledge

  /** An `annotates` edge leaving `neuron`. */
  function AnnotatesFrom(neuron: Id): Edge -> bool
  {
    (e: Edge) => e.sub == neuron && e.pred == Annotates
  }

  /** A `references` edge leaving `a`. */
  function ReferenceFrom(a: Id): Edge -> bool
  {
    (e: Edge) => e.sub == a && e.pred == References
  }

  /** The objects of the `references` edges leaving `a`: one per such edge,
      in edge order. */
  function ReferencesOf(edges: seq<Edge>, a: Id): (r: seq<Id>)
    ensures forall x :: x in r <==> exists e :: e in edges && e.sub == a && e.pred == References && e.obj == x
    ensures |r| == |Filter(edges, ReferenceFrom(a))| <= |edges|
    ensures forall i :: 0 <= i < |r| ==> r[i] == Filter(edges, ReferenceFrom(a))[i].obj
  {
    var refs := Filter(edges, ReferenceFrom(a));
    var r := seq(|refs|, i requires 0 <= i < |refs| => refs[i].obj);
    assert forall x :: x in r <==> exists e :: e in refs && e.obj == x by {
      forall x | x in r
        ensures exists e :: e in refs && e.obj == x
      {
        var i :| 0 <= i < |r| && r[i] == x;
        assert refs[i] in refs;
      }
      forall e | e in refs
        ensures e.obj in r
      {
        var i :| 0 <= i < |refs| && refs[i] == e;
        assert r[i] == e.obj;
      }
    }
    r
  }

  /** The label of a found node: `node['meta'].get('synonym', [neuron])[0]`
      and `node['lbl']`. A node without `meta` or `lbl` is the `KeyError`;
      an empty synonym list the `IndexError`. */
  function Labels(neuron: Id, n: Node): (r: Result<(string, string), Failure>)
    ensures r.Ok? <==> n.meta.Some? && n.lbl.Some? && (n.meta.value.synonym.Some? ==> |n.meta.value.synonym.value| > 0)
    ensures r.Ok? ==> r.value.1 == n.lbl.value
    ensures r.Ok? ==> r.value.0 == if n.meta.value.synonym.Some? then n.meta.value.synonym.value[0] else neuron
    ensures r.Err? ==> r.error.MissingField?
  {
    if n.meta.None? then Err(MissingField("meta"))
    else
      var synonyms := if n.meta.value.synonym.Some? then n.meta.value.synonym.value else [neuron];
      if |synonyms| == 0 then Err(MissingField("synonym"))
      else if n.lbl.None? then Err(MissingField("lbl"))
      else Ok((synonyms[0], n.lbl.value))
  }

  /** `k` is the first position of a node carrying `id`. */
  ghost predicate FirstWith(nodes: seq<Node>, id: Id, k: nat)
  {
    k < |nodes| && nodes[k].id == id && forall j :: 0 <= j < k ==> nodes[j].id != id
  }

  /** The label and long label of the first node carrying `neuron`, as the
      loop with `break` finds it; the id itself and no long label when no
      node carries it. */
  function LabelsOf(neuron: Id, nodes: seq<Node>): (r: Result<(string, Option<string>), Failure>)
    ensures r.Ok? ==> (r.value.1.None? <==> forall n :: n in nodes ==> n.id != neuron)
    ensures r.Ok? && r.value.1.None? ==> r.value.0 == neuron
    ensures r.Ok? && r.value.1.Some? ==> exists k: nat :: (FirstWith(nodes, neuron, k)
      && Labels(neuron, nodes[k]) == Ok((r.value.0, r.value.1.value)))
    ensures r.Err? ==> r.error.MissingField? && exists k: nat :: (FirstWith(nodes, neuron, k)
      && Labels(neuron, nodes[k]) == Err(r.error))
  {
    match FirstWhere(nodes, HasId(neuron))
    case None => Ok((neuron, None))
    case Some(k) =>
      assert nodes[k] in nodes && FirstWith(nodes, neuron, k);
      var l :- Labels(neuron, nodes[k]);
      Ok((l.0, Some(l.1)))
  }

  /** `e` is the first `annotates` edge leaving `neuron`, and names `a`. */
  ghost predicate FirstAnnotates(edges: seq<Edge>, neuron: Id, a: Id)
  {
    exists k :: 0 <= k < |edges| && edges[k].sub == neuron && edges[k].pred == Annotates && edges[k].obj == a
      && forall j :: 0 <= j < k ==> !(edges[j].sub == neuron && edges[j].pred == Annotates)
  }

  /** The references of the model neuron the first `annotates` edge names;
      none without such an edge. */
  function ReferencesFor(neuron: Id, edges: seq<Edge>): (r: Option<seq<Id>>)
    ensures r.Some? <==> exists e :: e in edges && e.sub == neuron && e.pred == Annotates
    ensures r.Some? ==> exists a :: (FirstAnnotates(edges, neuron, a)
      && (forall x :: x in r.value <==> exists e :: e in edges && e.sub == a && e.pred == References && e.obj == x)
      && |r.value| == |Filter(edges, ReferenceFrom(a))|
      && forall i :: 0 <= i < |r.value| ==> r.value[i] == Filter(edges, ReferenceFrom(a))[i].obj)
  {
    match FirstWhere(edges, AnnotatesFrom(neuron))
    case None => None
    case Some(k) =>
      assert edges[k] in edges;
      assert FirstAnnotates(edges, neuron, edges[k].obj);
      Some(ReferencesOf(edges, edges[k].obj))
  }

  /** The knowledge record of a neuron population. */
  datatype NeuronRecord = NeuronRecord(
    id: Id, shortLabel: string, longLabel: Option<string>, references: Option<seq<Id>>, paths: Paths)

  /** `Apinatomy.neuron_knowledge(neuron, data)`: the labels of the neuron's
      node, the references of the model neuron it annotates, and the
      connectivity of the whole blob; the first of their errors otherwise. */
  function NeuronKnowledge(neuron: Id, data: Blob): (r: Result<NeuronRecord, Failure>)
    ensures r.Ok? <==> LabelsOf(neuron, data.nodes).Ok? && ParseConnectivity(data).Ok?
    ensures r.Ok? ==> r.value.id == neuron && ParseConnectivity(data) == Ok(r.value.paths)
    ensures r.Ok? ==> LabelsOf(neuron, data.nodes) == Ok((r.value.shortLabel, r.value.longLabel))
    ensures r.Ok? ==> r.value.references == ReferencesFor(neuron, data.edges)
    ensures r.Err? ==> r.error.MissingField? || ParseConnectivity(data) == Err(r.error)
  {
    var labels :- LabelsOf(neuron, data.nodes);
    var paths :- ParseConnectivity(data);
    Ok(NeuronRecord(neuron, labels.0, labels.1, ReferencesFor(neuron, data.edges), paths))
  }

  // -------------------------------------------------------- model_knowledge

  /** `'Class' in node.get('meta', {}).get('types', [])`. */
  predicate IsClass(n: Node)
  {
    n.meta.Some? && n.meta.value.types.Some? && "Class" in n.meta.value.types.value
  }

  datatype ModelPath = ModelPath(id: Id, models: Id)

  datatype ModelRecord = ModelRecord(id: Id, paths: seq<ModelPath>)

  /** One path per class node, in order. */
  function PathsOf(classes: seq<Node>): (r: seq<ModelPath>)
    ensures |r| == |classes|
    ensures forall p :: p in r ==> p.models == p.id && exists n :: n in classes && n.id == p.id
    ensures forall n :: n in classes ==> ModelPath(n.id, n.id) in r
    ensures forall i :: 0 <= i < |r| ==> r[i] == ModelPath(classes[i].id, classes[i].id)
  {
    if |classes| == 0 then []
    else
      assert classes == [classes[0]] + classes[1..];
      [ModelPath(classes[0].id, classes[0].id)] + PathsOf(classes[1..])
  }

  /** `Apinatomy.model_knowledge(model, data)`: one path per class node, in
      node order, naming the node as the path and as what it models. */
  function ModelKnowledge(model: Id, data: Blob): (r: ModelRecord)
    ensures r.id == model
    ensures |r.paths| == |Filter(data.nodes, IsClass)|
    ensures forall p :: p in r.paths ==> p.models == p.id && exists n :: n in data.nodes && IsClass(n) && n.id == p.id
    ensures forall n :: n in data.nodes && IsClass(n) ==> ModelPath(n.id, n.id) in r.paths
    ensures forall i :: 0 <= i < |r.paths| ==>
      r.paths[i] == ModelPath(Filter(data.nodes, IsClass)[i].id, Filter(data.nodes, IsClass)[i].id)
  {
    ModelRecord(model, PathsOf(Filter(data.nodes, IsClass)))
  }

  // ------------------------------------------------------------- phenotypes

  const PhenotypePreds: set<string> := {
    "ilxtr:hasPhenotype",
    "ilxtr:hasMolecularPhenotype",
    "ilxtr:hasProjectionPhenotype",
    "ilxtr:hasCircuitRolePhenotype",
    "ilxtr:hasFunctionalCircuitRolePhenotype"
  }

  predicate PhenotypeEdge(e: Edge)
  {
    e.pred in PhenotypePreds
  }

  /** `Apinatomy.phenotypes(data)`: the objects of the phenotype edges, one
      per edge, in edge order. */
  function Phenotypes(data: Blob): (r: seq<Id>)
    ensures |r| == |Filter(data.edges, PhenotypeEdge)|
    ensures forall i :: 0 <= i < |r| ==> r[i] == Filter(data.edges, PhenotypeEdge)[i].obj
    ensures forall x :: x in r <==> exists e :: e in data.edges && e.pred in PhenotypePreds && e.obj == x
  {
    var es := Filter(data.edges, PhenotypeEdge);
    var r := seq(|es|, i requires 0 <= i < |es| => es[i].obj);
    assert forall x :: x in r <==> exists e :: e in es && e.obj == x by {
      forall x | x in r
        ensures exists e :: e in es && e.obj == x
      {
        var i :| 0 <= i < |r| && r[i] == x;
        assert es[i] in es;
      }
      forall e | e in es
        ensures e.obj in r
      {
        var i :| 0 <= i < |es| && es[i] == e;
        assert r[i] == e.obj;
      }
    }
    r
  }
}
