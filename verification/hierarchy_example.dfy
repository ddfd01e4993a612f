/** `reclr` worked through on the smallest hierarchy that pairs a layer with
    a region: a lyph `s` is a layer of `l`, which is itself a layer of the
    region `m`. The layer `l`'s external term `x` is queued; the region `m`'s
    external term `t` is then collected together with it. */
module HierarchyExample {
  import opened Wrappers
  import opened Blobs
  import opened Nifstd
  import opened Hierarchy

  /** The four edges of the tower `s layerIn l`, `l ontologyTerms x`,
      `l layerIn m`, `m ontologyTerms t`, with both terms present as nodes.
      The three lyphs are distinct; the terms may be anything. */
  ghost predicate IsTower(b: Blob, s: Id, l: Id, x: Id, m: Id, t: Id)
  {
    && |b.edges| == 4
    && b.edges[0] == Edge(s, LayerIn, l, None)
    && b.edges[1] == Edge(l, OntologyTerms, x, None)
    && b.edges[2] == Edge(l, LayerIn, m, None)
    && b.edges[3] == Edge(m, OntologyTerms, t, None)
    && HasNode(b, x) && HasNode(b, t)
    && s != l && s != m && l != m
  }

  /** Which of the tower's edges `select` and `select_ext` act on, from
      each of the three lyphs. */
  lemma TowerScope(b: Blob, s: Id, l: Id, x: Id, m: Id, t: Id)
    requires IsTower(b, s, l, x, m, t)
    ensures ContainedBy(b.edges[0], s) && ContainedBy(b.edges[2], l)
    ensures b.edges[1].pred in ExternalPreds && b.edges[3].pred in ExternalPreds
    ensures forall j :: 0 <= j < |b.edges| && j != 0 ==> !ContainedBy(b.edges[j], s)
    ensures forall j :: 0 <= j < |b.edges| && j != 2 ==> !ContainedBy(b.edges[j], l)
    ensures forall j :: 0 <= j < |b.edges| ==> !ContainedBy(b.edges[j], m)
    ensures forall j :: 0 <= j < |b.edges| && j != 1 ==> !ExternalFrom(b.edges[j], l)
    ensures forall j :: 0 <= j < |b.edges| && j != 3 ==> !ExternalFrom(b.edges[j], m)
  {
    assert LayerIn in Containment && OntologyTerms !in Containment;
    assert OntologyTerms in ExternalPreds && LayerIn !in ExternalPreds && LayerIn != CloneOf;
  }

  /** `l` is a layer (it lies in `m`), and `m` is not. */
  lemma TowerLayers(b: Blob, s: Id, l: Id, x: Id, m: Id, t: Id)
    requires IsTower(b, s, l, x, m, t)
    ensures Layered(b, l) && !Layered(b, m)
  {
    assert b.edges[2] in b.edges;
    forall e | e in b.edges
      ensures !(e.sub == m && e.pred == LayerIn)
    {
      var j :| 0 <= j < 4 && b.edges[j] == e;
    }
  }

  /** Under the region `m`, the lone queued layer `x` is paired with `t`. */
  lemma CollectAtRegion(b: Blob, x: Id, t: Id)
    requires HasNode(b, t)
    ensures AddExternal(b, t, true, LrState([], [x])) == Ok(LrState([(Some(x), t)], []))
  {
    assert TakeLayer([x]) == Ok((Some(x), []));
    assert [] + [(Some(x), t)] == [(Some(x), t)];
  }

  /** Under the layer `l`, its term `x` is queued. */
  lemma QueueAtLayer(b: Blob, x: Id)
    requires HasNode(b, x)
    ensures AddExternal(b, x, false, LrState([], [])) == Ok(LrState([], [x]))
  {
    assert [] + [x] == [x];
  }

  /** From `m` nothing is climbed, and only `t` is collected. */
  lemma AtRegion(b: Blob, s: Id, l: Id, x: Id, m: Id, t: Id)
    requires IsTower(b, s, l, x, m, t)
    ensures Climb(b, m, true, LrState([], [x]), 4) == Ok(LrState([(Some(x), t)], []))
  {
    TowerLayers(b, s, l, x, m, t);
    TowerScope(b, s, l, x, m, t);
    ExtOne(b, b.edges, 3, m, true, LrState([], [x]), 4);
    CollectAtRegion(b, x, t);
    SelectSkip(b, b.edges, m, LrState([(Some(x), t)], []), 3);
  }

  /** From `l`, `x` is queued as a layer and the climb goes on into `m`. */
  lemma AtLayer(b: Blob, s: Id, l: Id, x: Id, m: Id, t: Id)
    requires IsTower(b, s, l, x, m, t)
    ensures Climb(b, l, false, LrState([], []), 5) == Climb(b, m, true, LrState([], [x]), 4)
  {
    TowerLayers(b, s, l, x, m, t);
    TowerScope(b, s, l, x, m, t);
    ExtOne(b, b.edges, 1, l, false, LrState([], []), 5);
    QueueAtLayer(b, x);
    SelectOne(b, b.edges, 2, l, LrState([], [x]), 4);
  }

  /** The region's term is collected with the layer's term. */
  lemma TowerPairs(b: Blob, s: Id, l: Id, x: Id, m: Id, t: Id)
    requires IsTower(b, s, l, x, m, t)
    ensures Reclr(b, s) == Ok([(Some(x), t)])
  {
    TowerScope(b, s, l, x, m, t);
    TowerLayers(b, s, l, x, m, t);
    SelectOne(b, b.edges, 0, s, LrState([], []), Fuel(b));
    AtLayer(b, s, l, x, m, t);
    AtRegion(b, s, l, x, m, t);
  }

  /** The direct case: `s internalIn m`, `m ontologyTerms t`, with `t`
      present as a node and `s` distinct from `m`. */
  ghost predicate IsDirect(b: Blob, s: Id, m: Id, t: Id)
  {
    && |b.edges| == 2
    && b.edges[0] == Edge(s, InternalIn, m, None)
    && b.edges[1] == Edge(m, OntologyTerms, t, None)
    && HasNode(b, t) && s != m
  }

  lemma DirectScope(b: Blob, s: Id, m: Id, t: Id)
    requires IsDirect(b, s, m, t)
    ensures ContainedBy(b.edges[0], s) && b.edges[1].pred in ExternalPreds
    ensures !ContainedBy(b.edges[1], s) && !Layered(b, m)
    ensures forall j :: 0 <= j < |b.edges| ==> !ContainedBy(b.edges[j], m)
    ensures !ExternalFrom(b.edges[0], m)
  {
    assert InternalIn in Containment && OntologyTerms !in Containment;
    assert OntologyTerms in ExternalPreds && InternalIn !in ExternalPreds && InternalIn != CloneOf;
    forall e | e in b.edges
      ensures !(e.sub == m && e.pred == LayerIn)
    {
      var j :| 0 <= j < 2 && b.edges[j] == e;
    }
  }

  /** With no layer queued, the region's term is collected without one. */
  lemma CollectAlone(b: Blob, t: Id)
    requires HasNode(b, t)
    ensures AddExternal(b, t, true, LrState([], [])) == Ok(LrState([(None, t)], []))
  {
    var p: (Option<Id>, Id) := (None, t);
    assert [] + [p] == [p];
  }

  /** A lyph directly inside a region yields the region's term, with no layer. */
  lemma DirectPairs(b: Blob, s: Id, m: Id, t: Id)
    requires IsDirect(b, s, m, t)
    ensures Reclr(b, s) == Ok([(None, t)])
  {
    DirectScope(b, s, m, t);
    SelectOne(b, b.edges, 0, s, LrState([], []), Fuel(b));
    ExtOne(b, b.edges, 1, m, true, LrState([], []), 3);
    CollectAlone(b, t);
    SelectSkip(b, b.edges, m, LrState([(None, t)], []), 2);
  }
}
