/** The hierarchy resolvers: from a lyph, walk the containment edges up to
    the regions and layers it sits in, read off their external ontology terms.

    The source's walks recurse through `ematch` with no record of where they
    have been, so a containment cycle recurses until Python gives up. Here
    each walk carries a depth bound `fuel`; running out is `RecursionLimit`.
    `Fuel(b)` is one more than the number of edges, which a walk over an
    acyclic containment graph never needs to exceed. */
module Hierarchy {
  import opened Wrappers
  import opened Seqs
  import opened Blobs
  import opened Nifstd

  function Fuel(b: Blob): nat
  {
    |b.edges| + 1
  }

  /** The `ematch` selector `sub(e, m) and pred(e, 'apinatomy:layerIn')`. */
  predicate LayerInFrom(e: Edge, m: Id)
  {
    SubIs(e, m) && PredIs(e, LayerIn)
  }

  /** `Apinatomy.isLayer(blob, m)`: the `layerIn` edges leaving `m`, which
      callers read as "`m` is a layer" when there are any. */
  function IsLayer(b: Blob, m: Id): (r: seq<Edge>)
    ensures |r| > 0 <==> exists e :: e in b.edges && e.sub == m && e.pred == LayerIn
    ensures forall e :: e in r ==> e in b.edges && e.sub == m && e.pred == LayerIn
  {
    var r := Ematch(b, LayerInFrom, m);
    NonEmptyHasHead(r);
    r
  }

  predicate Layered(b: Blob, m: Id)
  {
    |IsLayer(b, m)| > 0
  }

  /** `x` is a node of the blob and the object of some external-term edge. */
  ghost predicate Term(b: Blob, x: Id)
  {
    HasNode(b, x) && exists e :: e in b.edges && e.pred in ExternalPreds && e.obj == x
  }

  // ------------------------------------------------------------------ reclr

  /** The layer candidates `reclr` skips over when it has a choice. */
  const Bads: set<Id> := {"UBERON:0000010", "UBERON:0001017"}

  /** The containment predicates `reclr` climbs. */
  const Containment: set<string> := {LayerIn, FasciculatesIn, EndsIn, InternalIn}

  /** `l, *layer = layer` followed by `while l in bads: l, *layer = layer`:
      the first candidate not in `Bads` and what follows it; a `ValueError`
      when every candidate is bad. */
  function SkipBads(s: seq<Id>): (r: Result<(Option<Id>, seq<Id>), Failure>)
    requires |s| > 0
    ensures r.Err? <==> forall x :: x in s ==> x in Bads
    ensures r.Err? ==> r.error == LayersExhausted
    ensures r.Ok? ==> exists k :: (0 <= k < |s| && r.value == (Some(s[k]), s[k + 1..])
      && s[k] !in Bads && forall j :: 0 <= j < k ==> s[j] in Bads)
    decreases |s|
  {
    if s[0] !in Bads then
      Ok((Some(s[0]), s[1..]))
    else if |s| == 1 then
      Err(LayersExhausted)
    else
      var r := SkipBads(s[1..]);
      assert forall x :: x in s <==> x == s[0] || x in s[1..] by {
        assert s == [s[0]] + s[1..];
      }
      if r.Ok? then
        var k :| 0 <= k < |s[1..]| && r.value == (Some(s[1..][k]), s[1..][k + 1..])
          && s[1..][k] !in Bads && forall j :: 0 <= j < k ==> s[1..][j] in Bads;
        assert s[k + 1] == s[1..][k] && s[k + 2..] == s[1..][k + 1..];
        assert forall j :: 0 <= j < k + 1 ==> s[j] in Bads by {
          forall j | 0 <= j < k + 1
            ensures s[j] in Bads
          {
            if j > 0 {
              assert s[j] == s[1..][j - 1];
            }
          }
        }
        r
      else
        r
  }

  /** The layer paired with the next region: none when there is no
      candidate, a lone candidate as it is (even a bad one), otherwise the
      first good candidate, dropping it and the bad ones before it. */
  function TakeLayer(layer: seq<Id>): (r: Result<(Option<Id>, seq<Id>), Failure>)
    ensures |layer| == 0 ==> r == Ok((None, []))
    ensures |layer| == 1 ==> r == Ok((Some(layer[0]), []))
    ensures |layer| > 1 ==> (r.Err? <==> forall x :: x in layer ==> x in Bads)
    ensures |layer| > 1 && r.Ok? ==> exists k :: (0 <= k < |layer| && r.value == (Some(layer[k]), layer[k + 1..])
      && layer[k] !in Bads && forall j :: 0 <= j < k ==> layer[j] in Bads)
    ensures r.Err? ==> r.error == LayersExhausted
  {
    if |layer| == 0 then Ok((None, []))
    else if |layer| == 1 then Ok((Some(layer[0]), []))
    else SkipBads(layer)
  }

  /** `collect` and `layer`, the state `reclr`'s closures share. */
  datatype LrState = LrState(collect: seq<(Option<Id>, Id)>, layer: seq<Id>)

  /** Everything collected or queued is a term of the blob. */
  ghost predicate Sound(b: Blob, st: LrState)
  {
    && (forall p :: p in st.collect ==> Term(b, p.1) && (p.0.Some? ==> Term(b, p.0.value)))
    && (forall x :: x in st.layer ==> Term(b, x))
  }

  /** `st.collect` is a prefix of `st'.collect`. */
  ghost predicate Grows(st: LrState, st': LrState)
  {
    |st.collect| <= |st'.collect| && st'.collect[..|st.collect|] == st.collect
  }

  /** One external term met by `select_ext`: under a region (`col`) it is
      collected with the next layer; under a layer it joins the candidates.
      The `[...][0]` node lookup fails when the term has no node. */
  function AddExternal(b: Blob, ext: Id, col: bool, st: LrState): (r: Result<LrState, Failure>)
    ensures r.Ok? ==> HasNode(b, ext)
    ensures r.Ok? && col ==> exists l :: (r.value.collect == st.collect + [(l, ext)]
      && (l.Some? ==> l.value in st.layer) && (forall x :: x in r.value.layer ==> x in st.layer))
    ensures r.Ok? && !col ==> r.value == LrState(st.collect, st.layer + [ext])
    ensures r.Err? ==> r.error == LayersExhausted || r.error == MissingNode(ext)
  {
    if col then
      var taken :- TakeLayer(st.layer);
      if !HasNode(b, ext) then Err(MissingNode(ext))
      else
        assert taken.0.Some? ==> taken.0.value in st.layer;
        assert forall x :: x in taken.1 ==> x in st.layer;
        Ok(LrState(st.collect + [(taken.0, ext)], taken.1))
    else if !HasNode(b, ext) then Err(MissingNode(ext))
    else Ok(LrState(st.collect, st.layer + [ext]))
  }

  lemma AddExternalSound(b: Blob, ext: Id, col: bool, st: LrState)
    requires exists e :: e in b.edges && e.pred in ExternalPreds && e.obj == ext
    ensures AddExternal(b, ext, col, st).Ok? && Sound(b, st) ==> Sound(b, AddExternal(b, ext, col, st).value)
    ensures AddExternal(b, ext, col, st).Ok? ==> Grows(st, AddExternal(b, ext, col, st).value)
  {
    var r := AddExternal(b, ext, col, st);
    if r.Ok? && col {
      var l :| r.value.collect == st.collect + [(l, ext)]
        && (l.Some? ==> l.value in st.layer) && (forall x :: x in r.value.layer ==> x in st.layer);
      assert r.value.collect[..|st.collect|] == st.collect;
    }
  }

  /** `nifstd.ematch(blob, select_ext, m)` over the edges `es`: external
      terms of `m` are added, and a `cloneOf` edge continues from its object. */
  function ExtScan(b: Blob, es: seq<Edge>, m: Id, col: bool, st: LrState, fuel: nat): (r: Result<LrState, Failure>)
    requires forall e :: e in es ==> e in b.edges
    ensures r.Ok? && Sound(b, st) ==> Sound(b, r.value) && Grows(st, r.value)
    ensures r.Err? ==> r.error in {LayersExhausted, RecursionLimit} || r.error.MissingNode?
    decreases fuel, |es|
  {
    if |es| == 0 then Ok(st)
    else
      var e := es[0];
      assert e in b.edges;
      var st1 :- if !SubIs(e, m) then Ok(st)
        else if PredIs(e, CloneOf) then
          (if fuel == 0 then Err(RecursionLimit) else ExtScan(b, b.edges, e.obj, col, st, fuel - 1))
        else if e.pred in ExternalPreds then
          AddExternalSound(b, e.obj, col, st);
          AddExternal(b, e.obj, col, st)
        else Ok(st);
      var r := ExtScan(b, es[1..], m, col, st1, fuel);
      assert r.Ok? && Sound(b, st) ==> Grows(st, r.value) by {
        if r.Ok? && Sound(b, st) {
          assert r.value.collect[..|st1.collect|][..|st.collect|] == r.value.collect[..|st.collect|];
        }
      }
      r
  }

  /** `nifstd.ematch(blob, select, m)` over the edges `es`: each containment
      edge leaving `m` decides `col` from whether its object is a layer, scans
      the object's external terms, then climbs from the object. */
  function SelectScan(b: Blob, es: seq<Edge>, m: Id, st: LrState, fuel: nat): (r: Result<LrState, Failure>)
    requires forall e :: e in es ==> e in b.edges
    ensures r.Ok? && Sound(b, st) ==> Sound(b, r.value) && Grows(st, r.value)
    ensures r.Err? ==> r.error in {LayersExhausted, RecursionLimit} || r.error.MissingNode?
    decreases fuel, |es| + 1
  {
    if |es| == 0 then Ok(st)
    else
      var e := es[0];
      var st1 :- if SubIs(e, m) && e.pred in Containment then ClimbInto(b, e.obj, st, fuel) else Ok(st);
      var r := SelectScan(b, es[1..], m, st1, fuel);
      assert r.Ok? && Sound(b, st) ==> Grows(st, r.value) by {
        if r.Ok? && Sound(b, st) {
          assert r.value.collect[..|st1.collect|][..|st.collect|] == r.value.collect[..|st.collect|];
        }
      }
      r
  }

  /** `select` at a containment edge into `x`: `col` is whether `x` is not
      a layer, then the climb from `x`. */
  function ClimbInto(b: Blob, x: Id, st: LrState, fuel: nat): (r: Result<LrState, Failure>)
    ensures r.Ok? && Sound(b, st) ==> Sound(b, r.value) && Grows(st, r.value)
    ensures r.Err? ==> r.error in {LayersExhausted, RecursionLimit} || r.error.MissingNode?
    decreases fuel, 1
  {
    Climb(b, x, !Layered(b, x), st, fuel)
  }

  /** What `select` does at a containment edge into `x`, with `col` decided
      from whether `x` is a layer: scan `x`'s external terms, then climb from `x`. */
  function Climb(b: Blob, x: Id, col: bool, st: LrState, fuel: nat): (r: Result<LrState, Failure>)
    ensures r.Ok? && Sound(b, st) ==> Sound(b, r.value) && Grows(st, r.value)
    ensures r.Err? ==> r.error in {LayersExhausted, RecursionLimit} || r.error.MissingNode?
    decreases fuel, 0
  {
    var s1 :- ExtScan(b, b.edges, x, col, st, fuel);
    if fuel == 0 then Err(RecursionLimit)
    else
      var r := SelectScan(b, b.edges, x, s1, fuel - 1);
      assert r.Ok? && Sound(b, st) ==> Grows(st, r.value) by {
        if r.Ok? && Sound(b, st) {
          assert r.value.collect[..|s1.collect|][..|st.collect|] == r.value.collect[..|st.collect|];
        }
      }
      r
  }

  /** `Apinatomy.reclr(blob, start)`: the `(layer, region)` pairs met
      climbing from `start`; every region and every layer in them is a term
      of the blob. */
  function Reclr(b: Blob, start: Id): (r: Result<seq<(Option<Id>, Id)>, Failure>)
    ensures r.Ok? ==> forall p :: p in r.value ==> Term(b, p.1) && (p.0.Some? ==> Term(b, p.0.value))
    ensures r.Err? ==> r.error in {LayersExhausted, RecursionLimit} || r.error.MissingNode?
  {
    var st :- SelectScan(b, b.edges, start, LrState([], []), Fuel(b));
    Ok(st.collect)
  }

  /** An edge `select` acts on: a containment edge leaving `m`. */
  predicate ContainedBy(e: Edge, m: Id)
  {
    SubIs(e, m) && e.pred in Containment
  }

  /** An edge `select_ext` acts on: a `cloneOf` or external-term edge leaving `m`. */
  predicate ExternalFrom(e: Edge, m: Id)
  {
    SubIs(e, m) && (e.pred == CloneOf || e.pred in ExternalPreds)
  }


  /** `select` ignores every edge but the containment edges leaving `m`. */
  lemma {:induction false} SelectSkip(b: Blob, es: seq<Edge>, m: Id, st: LrState, fuel: nat)
    requires forall e :: e in es ==> e in b.edges
    requires forall j :: 0 <= j < |es| ==> !ContainedBy(es[j], m)
    ensures SelectScan(b, es, m, st, fuel) == Ok(st)
    decreases |es|
  {
    if |es| > 0 {
      assert !ContainedBy(es[0], m);
      SelectSkip(b, es[1..], m, st, fuel);
    }
  }

  /** With one containment edge leaving `m`, the scan is the climb through it. */
  lemma {:induction false} SelectOne(b: Blob, es: seq<Edge>, i: nat, m: Id, st: LrState, fuel: nat)
    requires forall e :: e in es ==> e in b.edges
    requires i < |es| && ContainedBy(es[i], m)
    requires forall j :: 0 <= j < |es| && j != i ==> !ContainedBy(es[j], m)
    ensures SelectScan(b, es, m, st, fuel) == Climb(b, es[i].obj, !Layered(b, es[i].obj), st, fuel)
    decreases |es|
  {
    if i == 0 {
      var c := Climb(b, es[0].obj, !Layered(b, es[0].obj), st, fuel);
      if c.Ok? {
        SelectSkip(b, es[1..], m, c.value, fuel);
      }
    } else {
      assert !ContainedBy(es[0], m);
      SelectOne(b, es[1..], i - 1, m, st, fuel);
    }
  }

  /** `select_ext` ignores every edge but the `cloneOf` and external-term
      edges leaving `m`. */
  lemma {:induction false} ExtSkip(b: Blob, es: seq<Edge>, m: Id, col: bool, st: LrState, fuel: nat)
    requires forall e :: e in es ==> e in b.edges
    requires forall j :: 0 <= j < |es| ==> !ExternalFrom(es[j], m)
    ensures ExtScan(b, es, m, col, st, fuel) == Ok(st)
    decreases |es|
  {
    if |es| > 0 {
      assert !ExternalFrom(es[0], m);
      ExtSkip(b, es[1..], m, col, st, fuel);
    }
  }

  /** With one external-term edge leaving `m`, the scan adds its term. */
  lemma {:induction false} ExtOne(b: Blob, es: seq<Edge>, i: nat, m: Id, col: bool, st: LrState, fuel: nat)
    requires forall e :: e in es ==> e in b.edges
    requires i < |es| && SubIs(es[i], m) && es[i].pred in ExternalPreds
    requires forall j :: 0 <= j < |es| && j != i ==> !ExternalFrom(es[j], m)
    ensures ExtScan(b, es, m, col, st, fuel) == AddExternal(b, es[i].obj, col, st)
    decreases |es|
  {
    if i == 0 {
      assert es[0].pred != CloneOf;
      var a := AddExternal(b, es[0].obj, col, st);
      if a.Ok? {
        ExtSkip(b, es[1..], m, col, a.value, fuel);
      }
    } else {
      assert !ExternalFrom(es[0], m);
      ExtOne(b, es[1..], i - 1, m, col, st, fuel);
    }
  }

  /** A start with no containment edge leaving it sits in nothing:
      `reclr` collects no pair. */
  lemma ReclrUncontained(b: Blob, start: Id)
    requires forall e :: e in b.edges ==> !ContainedBy(e, start)
    ensures Reclr(b, start) == Ok([])
  {
    SelectSkip(b, b.edges, start, LrState([], []), Fuel(b));
  }

  /** `es[i]` is the one containment edge leaving `m`. */
  predicate OnlyContainment(es: seq<Edge>, i: nat, m: Id)
  {
    i < |es| && ContainedBy(es[i], m) && forall k :: 0 <= k < |es| && k != i ==> !ContainedBy(es[k], m)
  }

  /** `es[i]` is the one external-term edge leaving `m`, and no `cloneOf` edge leaves `m`. */
  predicate OnlyExternal(es: seq<Edge>, i: nat, m: Id)
  {
    && i < |es| && SubIs(es[i], m) && es[i].pred in ExternalPreds
    && forall k :: 0 <= k < |es| && k != i ==> !ExternalFrom(es[k], m)
  }

  predicate Uncontained(es: seq<Edge>, m: Id)
  {
    forall k :: 0 <= k < |es| ==> !ContainedBy(es[k], m)
  }

  /** An ascent from `xs[0]`: each lyph but the top leaves by exactly one
      containment edge, `b.edges[ci[j]]`, into the next, and the top by none;
      each lyph above the start has exactly one external-term edge,
      `b.edges[ti[j - 1]]`, and no `cloneOf` edge. */
  ghost predicate Ascent(b: Blob, xs: seq<Id>, ci: seq<nat>, ti: seq<nat>)
  {
    && |xs| > 0 && |ci| == |xs| - 1 && |ti| == |xs| - 1
    && (forall j :: 0 <= j < |ci| ==> OnlyContainment(b.edges, ci[j], xs[j]) && b.edges[ci[j]].obj == xs[j + 1])
    && Uncontained(b.edges, xs[|xs| - 1])
    && (forall j :: 0 <= j < |ti| ==> OnlyExternal(b.edges, ti[j], xs[j + 1]))
  }

  /** `select`'s `col` at `xs[j]`: whether the lyph is a region, that is,
      does not lie in the next one by `layerIn`. */
  function RegionAt(b: Blob, xs: seq<Id>, ci: seq<nat>, ti: seq<nat>, j: nat): bool
    requires Ascent(b, xs, ci, ti) && j < |xs|
  {
    !(j < |ci| && b.edges[ci[j]].pred == LayerIn)
  }

  /** The reference for `reclr` on an ascent, from `xs[j]` up: each lyph's
      term is queued when the lyph is a layer of the next one, and is
      otherwise collected with the next queued layer. */
  function AscentFold(b: Blob, xs: seq<Id>, ci: seq<nat>, ti: seq<nat>, j: nat, st: LrState): Result<LrState, Failure>
    requires Ascent(b, xs, ci, ti) && 1 <= j <= |xs|
    decreases |xs| - j, 1
  {
    if j == |xs| then Ok(st) else FoldAt(b, xs, ci, ti, j, st)
  }

  /** The fold at a lyph below the top: add its term, then go on above it. */
  function FoldAt(b: Blob, xs: seq<Id>, ci: seq<nat>, ti: seq<nat>, j: nat, st: LrState): Result<LrState, Failure>
    requires Ascent(b, xs, ci, ti) && 1 <= j < |xs|
    decreases |xs| - j, 0
  {
    var s1 :- AddExternal(b, b.edges[ti[j - 1]].obj, RegionAt(b, xs, ci, ti, j), st);
    AscentFold(b, xs, ci, ti, j + 1, s1)
  }

  /** The lyphs of an ascent are pairwise distinct. */
  lemma AscentApart(b: Blob, xs: seq<Id>, ci: seq<nat>, ti: seq<nat>, j: nat, k: nat)
    requires Ascent(b, xs, ci, ti) && j < k < |xs|
    ensures xs[j] != xs[k]
    decreases |xs| - k
  {
    if k < |ci| {
      AscentApart(b, xs, ci, ti, j + 1, k + 1);
      assert ContainedBy(b.edges[ci[k]], xs[k]);
    } else {
      assert ContainedBy(b.edges[ci[j]], xs[j]);
    }
  }

  /** An ascent climbs through distinct edges, so it is at most one lyph
      longer than the blob has edges. */
  lemma AscentShort(b: Blob, xs: seq<Id>, ci: seq<nat>, ti: seq<nat>)
    requires Ascent(b, xs, ci, ti)
    ensures |xs| <= |b.edges| + 1
  {
    var cs := seq(|ci|, j requires 0 <= j < |ci| && Ascent(b, xs, ci, ti) => b.edges[ci[j]]);
    forall i, j | 0 <= i < j < |cs|
      ensures cs[i] != cs[j]
    {
      AscentApart(b, xs, ci, ti, i, j);
    }
    DistinctWithin(cs, b.edges);
  }

  /** A lyph of an ascent is a layer iff its containment edge is `layerIn`. */
  lemma AscentLayered(b: Blob, xs: seq<Id>, ci: seq<nat>, ti: seq<nat>, j: nat)
    requires Ascent(b, xs, ci, ti) && j < |xs|
    ensures !Layered(b, xs[j]) == RegionAt(b, xs, ci, ti, j)
  {
    var ls := IsLayer(b, xs[j]);
    if |ls| > 0 {
      var i :| 0 <= i < |b.edges| && b.edges[i] == ls[0];
      assert ContainedBy(b.edges[i], xs[j]);
      assert j < |ci|;
      assert i == ci[j];
    } else if j < |ci| {
      assert b.edges[ci[j]] in b.edges;
    }
  }

  /** Climbing an ascent from `xs[j]` is the reference fold from `xs[j]`. */
  lemma {:induction false} AscentClimb(b: Blob, xs: seq<Id>, ci: seq<nat>, ti: seq<nat>, j: nat, st: LrState, fuel: nat)
    requires Ascent(b, xs, ci, ti) && 1 <= j < |xs| && fuel >= |xs| - j
    ensures Climb(b, xs[j], RegionAt(b, xs, ci, ti, j), st, fuel) == AscentFold(b, xs, ci, ti, j, st)
    decreases |xs| - j
  {
    var col := RegionAt(b, xs, ci, ti, j);
    var a := ClimbNext(b, xs, ci, ti, j, st, fuel);
    FoldHere(b, xs, ci, ti, j, st);
    if a.Err? {
      assert Climb(b, xs[j], col, st, fuel) == Err(a.error);
      assert AscentFold(b, xs, ci, ti, j, st) == Err(a.error);
    } else if j < |ci| {
      AscentClimb(b, xs, ci, ti, j + 1, a.value, fuel - 1);
      assert Climb(b, xs[j], col, st, fuel) == AscentFold(b, xs, ci, ti, j + 1, a.value);
      assert AscentFold(b, xs, ci, ti, j, st) == AscentFold(b, xs, ci, ti, j + 1, a.value);
    } else {
      assert Climb(b, xs[j], col, st, fuel) == Ok(a.value);
      assert AscentFold(b, xs, ci, ti, j, st) == Ok(a.value);
    }
  }

  /** The climb from `xs[j]` adds the lyph's one term, giving `a`, then goes
      on into `xs[j + 1]`, or stops at the top. */
  lemma ClimbNext(b: Blob, xs: seq<Id>, ci: seq<nat>, ti: seq<nat>, j: nat, st: LrState, fuel: nat)
      returns (a: Result<LrState, Failure>)
    requires Ascent(b, xs, ci, ti) && 1 <= j < |xs| && fuel > 0
    ensures a == AddExternal(b, b.edges[ti[j - 1]].obj, RegionAt(b, xs, ci, ti, j), st)
    ensures a.Err? ==> Climb(b, xs[j], RegionAt(b, xs, ci, ti, j), st, fuel) == Err(a.error)
    ensures a.Ok? && j < |ci| ==>
      Climb(b, xs[j], RegionAt(b, xs, ci, ti, j), st, fuel) == Climb(b, xs[j + 1], RegionAt(b, xs, ci, ti, j + 1), a.value, fuel - 1)
    ensures a.Ok? && j == |ci| ==> Climb(b, xs[j], RegionAt(b, xs, ci, ti, j), st, fuel) == Ok(a.value)
  {
    a := ClimbHere(b, xs, ci, ti, j, st, fuel);
    if a.Ok? {
      var up := SelectScan(b, b.edges, xs[j], a.value, fuel - 1);
      assert Climb(b, xs[j], RegionAt(b, xs, ci, ti, j), st, fuel) == up;
      if j < |ci| {
        AscentUp(b, xs, ci, ti, j, a.value, fuel - 1);
      } else {
        AscentTop(b, xs, ci, ti, a.value, fuel - 1);
        assert up == Ok(a.value);
      }
    }
  }

  /** At the top of the ascent the scan finds no containment edge. */
  lemma AscentTop(b: Blob, xs: seq<Id>, ci: seq<nat>, ti: seq<nat>, st: LrState, fuel: nat)
    requires Ascent(b, xs, ci, ti)
    ensures SelectScan(b, b.edges, xs[|xs| - 1], st, fuel) == Ok(st)
  {
    SelectSkip(b, b.edges, xs[|xs| - 1], st, fuel);
  }

  /** The climb into `xs[j]` adds the lyph's one term, giving `a`, then
      scans the containment edges leaving it. */
  lemma ClimbHere(b: Blob, xs: seq<Id>, ci: seq<nat>, ti: seq<nat>, j: nat, st: LrState, fuel: nat)
      returns (a: Result<LrState, Failure>)
    requires Ascent(b, xs, ci, ti) && 1 <= j < |xs| && fuel > 0
    ensures a == AddExternal(b, b.edges[ti[j - 1]].obj, RegionAt(b, xs, ci, ti, j), st)
    ensures a.Err? ==> Climb(b, xs[j], RegionAt(b, xs, ci, ti, j), st, fuel) == Err(a.error)
    ensures a.Ok? ==>
      Climb(b, xs[j], RegionAt(b, xs, ci, ti, j), st, fuel) == SelectScan(b, b.edges, xs[j], a.value, fuel - 1)
  {
    var i := ti[j - 1];
    assert OnlyExternal(b.edges, i, xs[j]);
    ExtOne(b, b.edges, i, xs[j], RegionAt(b, xs, ci, ti, j), st, fuel);
    a := AddExternal(b, b.edges[i].obj, RegionAt(b, xs, ci, ti, j), st);
  }

  /** The fold at `xs[j]` adds the same term, then goes on from `j + 1`. */
  lemma FoldHere(b: Blob, xs: seq<Id>, ci: seq<nat>, ti: seq<nat>, j: nat, st: LrState)
    requires Ascent(b, xs, ci, ti) && 1 <= j < |xs|
    ensures var a := AddExternal(b, b.edges[ti[j - 1]].obj, RegionAt(b, xs, ci, ti, j), st);
      && (a.Err? ==> AscentFold(b, xs, ci, ti, j, st) == Err(a.error))
      && (a.Ok? ==> AscentFold(b, xs, ci, ti, j, st) == AscentFold(b, xs, ci, ti, j + 1, a.value))
      && (a.Ok? && j == |ci| ==> AscentFold(b, xs, ci, ti, j, st) == Ok(a.value))
  {
    assert AscentFold(b, xs, ci, ti, j, st) == FoldAt(b, xs, ci, ti, j, st);
  }

  /** Below the top, the scan from `xs[j]` climbs into `xs[j + 1]`. */
  lemma AscentUp(b: Blob, xs: seq<Id>, ci: seq<nat>, ti: seq<nat>, j: nat, st: LrState, fuel: nat)
    requires Ascent(b, xs, ci, ti) && j < |ci|
    ensures SelectScan(b, b.edges, xs[j], st, fuel) == Climb(b, xs[j + 1], RegionAt(b, xs, ci, ti, j + 1), st, fuel)
  {
    SelectOne(b, b.edges, ci[j], xs[j], st, fuel);
    AscentLayered(b, xs, ci, ti, j + 1);
  }

  /** `reclr` from the bottom of an ascent of any height is the reference
      fold: the pairs are what it collects, and its errors are the fold's. */
  lemma ReclrAscent(b: Blob, xs: seq<Id>, ci: seq<nat>, ti: seq<nat>)
    requires Ascent(b, xs, ci, ti)
    ensures AscentFold(b, xs, ci, ti, 1, LrState([], [])).Ok? ==>
      Reclr(b, xs[0]) == Ok(AscentFold(b, xs, ci, ti, 1, LrState([], [])).value.collect)
    ensures AscentFold(b, xs, ci, ti, 1, LrState([], [])).Err? ==>
      Reclr(b, xs[0]) == Err(AscentFold(b, xs, ci, ti, 1, LrState([], [])).error)
  {
    AscentShort(b, xs, ci, ti);
    if |xs| > 1 {
      AscentUp(b, xs, ci, ti, 0, LrState([], []), Fuel(b));
      AscentClimb(b, xs, ci, ti, 1, LrState([], []), Fuel(b));
    } else {
      SelectSkip(b, b.edges, xs[0], LrState([], []), Fuel(b));
    }
  }

  // ---------------------------------------------------------- layer_regions

  /** The objects of `es`, in order. */
  function Objects(es: seq<Edge>): (r: seq<Id>)
    ensures forall x :: x in r <==> exists e :: e in es && e.obj == x
  {
    var r := seq(|es|, i requires 0 <= i < |es| => es[i].obj);
    assert forall x :: x in r <==> exists e :: e in es && e.obj == x by {
      forall x | x in r
        ensures exists e :: e in es && e.obj == x
      {
        var i :| 0 <= i < |r| && r[i] == x;
        assert es[i] in es;
      }
      forall e | e in es
        ensures e.obj in r
      {
        var i :| 0 <= i < |es| && es[i] == e;
        assert r[i] == e.obj;
      }
    }
    r
  }

  /** The objects of the edges `select` accepts from each of `ds` in turn. */
  function ObjectsFrom(b: Blob, ds: seq<Id>, select: (Edge, Id) -> bool): (r: seq<Id>)
    ensures forall x :: x in r <==> exists d, e :: d in ds && e in b.edges && select(e, d) && e.obj == x
  {
    if |ds| == 0 then []
    else
      var rest := ObjectsFrom(b, ds[1..], select);
      assert forall d :: d in ds <==> d == ds[0] || d in ds[1..] by {
        assert ds == [ds[0]] + ds[1..];
      }
      Objects(Ematch(b, select, ds[0])) + rest
  }

  predicate DirectFrom(e: Edge, m: Id)
  {
    SubIs(e, m) && (PredIs(e, InternalIn) || PredIs(e, EndsIn) || PredIs(e, FasciculatesIn))
  }

  /** `e` is an external term of `m`, and `m` is a layer. */
  predicate IsLayerTerm(b: Blob, e: Edge, m: Id)
  {
    SubIs(e, m) && Layered(b, m) && e.pred in ExternalPreds
  }

  /** `e` is an external term of `m`, and `m` is a region (not a layer). */
  predicate IsRegionTerm(b: Blob, e: Edge, m: Id)
  {
    SubIs(e, m) && !Layered(b, m) && e.pred in ExternalPreds
  }

  function LayerTerm(b: Blob): (Edge, Id) -> bool
  {
    (e: Edge, m: Id) => IsLayerTerm(b, e, m)
  }

  function RegionTerm(b: Blob): (Edge, Id) -> bool
  {
    (e: Edge, m: Id) => IsRegionTerm(b, e, m)
  }

  predicate NotBad(x: Id)
  {
    x !in Bads
  }

  /** `d` is a direct container of `start`. */
  ghost predicate DirectlyIn(b: Blob, start: Id, d: Id)
  {
    exists e :: e in b.edges && DirectFrom(e, start) && e.obj == d
  }

  /** `layers` of `layer_regions` is non-empty: a direct container is a
      layer with a term outside `Bads`. */
  ghost predicate HasLayerTerm(b: Blob, start: Id)
  {
    exists d, e :: DirectlyIn(b, start, d) && e in b.edges && IsLayerTerm(b, e, d) && e.obj !in Bads
  }

  /** `lregs` would be non-empty: a direct container lies in a region that
      has a term. */
  ghost predicate HasLayerRegionTerm(b: Blob, start: Id)
  {
    exists d, e1, e2 :: DirectlyIn(b, start, d) && e1 in b.edges && LayerInFrom(e1, d)
      && e2 in b.edges && IsRegionTerm(b, e2, e1.obj)
  }

  /** `regions` of `layer_regions` is non-empty. */
  ghost predicate HasRegionTerm(b: Blob, start: Id)
  {
    exists d, e :: DirectlyIn(b, start, d) && e in b.edges && IsRegionTerm(b, e, d)
  }

  /** `Apinatomy.layer_regions(blob, start)`: `start` with `reclr`'s pairs,
      after the assertion that `start` does not both sit in a region through
      a layer (`lregs`, only looked for when it has layer terms) and sit
      directly in a region with a term (`regions`). */
  function LayerRegions(b: Blob, start: Id): (r: Result<(Id, seq<(Option<Id>, Id)>), Failure>)
    ensures r.Ok? ==> r.value.0 == start && Reclr(b, start) == Ok(r.value.1)
    ensures r == Err(LayerRegionConflict) <==>
      Reclr(b, start).Ok? && HasLayerTerm(b, start) && HasLayerRegionTerm(b, start) && HasRegionTerm(b, start)
    ensures r.Err? ==> r.error == LayerRegionConflict || Reclr(b, start) == Err(r.error)
  {
    var direct := ObjectsFrom(b, [start], DirectFrom);
    var layers := Filter(ObjectsFrom(b, direct, LayerTerm(b)), NotBad);
    var lregs := if |layers| > 0 then ObjectsFrom(b, ObjectsFrom(b, direct, LayerInFrom), RegionTerm(b)) else [];
    var regions := ObjectsFrom(b, direct, RegionTerm(b));
    var lrs :- Reclr(b, start);
    DirectOfStart(b, start);
    LayersOfDirect(b, start, direct);
    LayerRegionsOfDirect(b, start, direct);
    RegionsOfDirect(b, start, direct);
    if |lregs| > 0 && |regions| > 0 then Err(LayerRegionConflict)
    else Ok((start, lrs))
  }

  lemma DirectOfStart(b: Blob, start: Id)
    ensures forall d :: d in ObjectsFrom(b, [start], DirectFrom) <==> DirectlyIn(b, start, d)
  {
    forall d
      ensures d in ObjectsFrom(b, [start], DirectFrom) <==> DirectlyIn(b, start, d)
    {
      if d in ObjectsFrom(b, [start], DirectFrom) {
        var s, e :| s in [start] && e in b.edges && DirectFrom(e, s) && e.obj == d;
      }
    }
  }

  lemma LayersOfDirect(b: Blob, start: Id, direct: seq<Id>)
    requires forall d :: d in direct <==> DirectlyIn(b, start, d)
    ensures |Filter(ObjectsFrom(b, direct, LayerTerm(b)), NotBad)| > 0 <==> HasLayerTerm(b, start)
  {
    var objs := ObjectsFrom(b, direct, LayerTerm(b));
    var layers := Filter(objs, NotBad);
    if |layers| > 0 {
      var x := layers[0];
      assert x in objs && NotBad(x);
      var d, e := ObjectsFromWitness(b, direct, LayerTerm(b), x);
      assert IsLayerTerm(b, e, d);
    }
    if HasLayerTerm(b, start) {
      var d, e :| DirectlyIn(b, start, d) && e in b.edges && IsLayerTerm(b, e, d) && e.obj !in Bads;
      ObjectsFromIntro(b, direct, LayerTerm(b), d, e);
      assert e.obj in layers;
    }
  }

  lemma RegionsOfDirect(b: Blob, start: Id, direct: seq<Id>)
    requires forall d :: d in direct <==> DirectlyIn(b, start, d)
    ensures |ObjectsFrom(b, direct, RegionTerm(b))| > 0 <==> HasRegionTerm(b, start)
  {
    var regions := ObjectsFrom(b, direct, RegionTerm(b));
    if |regions| > 0 {
      var d, e := ObjectsFromWitness(b, direct, RegionTerm(b), regions[0]);
      assert IsRegionTerm(b, e, d);
    }
    if HasRegionTerm(b, start) {
      var d, e :| DirectlyIn(b, start, d) && e in b.edges && IsRegionTerm(b, e, d);
      ObjectsFromIntro(b, direct, RegionTerm(b), d, e);
    }
  }

  lemma LayerRegionsOfDirect(b: Blob, start: Id, direct: seq<Id>)
    requires forall d :: d in direct <==> DirectlyIn(b, start, d)
    ensures |ObjectsFrom(b, ObjectsFrom(b, direct, LayerInFrom), RegionTerm(b))| > 0 <==> HasLayerRegionTerm(b, start)
  {
    var ldir := ObjectsFrom(b, direct, LayerInFrom);
    var lregs := ObjectsFrom(b, ldir, RegionTerm(b));
    if |lregs| > 0 {
      var l, e2 := ObjectsFromWitness(b, ldir, RegionTerm(b), lregs[0]);
      var d, e1 := ObjectsFromWitness(b, direct, LayerInFrom, l);
      assert IsRegionTerm(b, e2, e1.obj);
    }
    if HasLayerRegionTerm(b, start) {
      var d, e1, e2 :| DirectlyIn(b, start, d) && e1 in b.edges && LayerInFrom(e1, d)
        && e2 in b.edges && IsRegionTerm(b, e2, e1.obj);
      ObjectsFromIntro(b, direct, LayerInFrom, d, e1);
      ObjectsFromIntro(b, ldir, RegionTerm(b), e1.obj, e2);
    }
  }

  lemma ObjectsFromWitness(b: Blob, ds: seq<Id>, select: (Edge, Id) -> bool, x: Id) returns (d: Id, e: Edge)
    requires x in ObjectsFrom(b, ds, select)
    ensures d in ds && e in b.edges && select(e, d) && e.obj == x
  {
    d, e :| d in ds && e in b.edges && select(e, d) && e.obj == x;
  }

  lemma ObjectsFromIntro(b: Blob, ds: seq<Id>, select: (Edge, Id) -> bool, d: Id, e: Edge)
    requires d in ds && e in b.edges && select(e, d)
    ensures e.obj in ObjectsFrom(b, ds, select)
  {
  }

  // ------------------------------------------------------------ find_region

  /** The containment predicates `find_region` and `find_region_layer` climb. */
  const RegionHops: set<string> := {LayerIn, FasciculatesIn, EndsIn}

  /** `x` is `m` or lies at most `k` region hops above it. */
  ghost predicate Within(b: Blob, m: Id, x: Id, k: nat)
    decreases k
  {
    m == x || (k > 0 && exists e :: e in b.edges && SubIs(e, m) && e.pred in RegionHops && Within(b, e.obj, x, k - 1))
  }

  /** `id` is an ontology term of something within `k` hops above `m`. */
  ghost predicate RegionFrom(b: Blob, m: Id, id: Id, k: nat)
  {
    exists y, t :: Within(b, m, y, k) && t in b.edges && SubIs(t, y) && PredIs(t, OntologyTerms) && t.obj == id
  }

  lemma RegionFromDirect(b: Blob, m: Id, t: Edge, k: nat)
    requires t in b.edges && SubIs(t, m) && PredIs(t, OntologyTerms)
    ensures RegionFrom(b, m, t.obj, k)
  {
    assert Within(b, m, m, k);
  }

  /** What lies within `k - 1` hops of a hop's object lies within `k` of its subject. */
  lemma RegionFromHop(b: Blob, m: Id, e: Edge, id: Id, k: nat)
    requires k > 0 && e in b.edges && SubIs(e, m) && e.pred in RegionHops
    requires RegionFrom(b, e.obj, id, k - 1)
    ensures RegionFrom(b, m, id, k)
  {
    var y, t :| Within(b, e.obj, y, k - 1) && t in b.edges && SubIs(t, y) && PredIs(t, OntologyTerms) && t.obj == id;
    assert Within(b, m, y, k);
  }

  /** A term within `k` hops of `m` is a term of `m` itself or lies within
      `k - 1` hops of the object of a hop from `m`. */
  lemma RegionFromUnfold(b: Blob, m: Id, id: Id, k: nat)
    requires RegionFrom(b, m, id, k)
    ensures (exists t :: t in b.edges && SubIs(t, m) && PredIs(t, OntologyTerms) && t.obj == id)
      || (k > 0 && exists e :: e in b.edges && SubIs(e, m) && e.pred in RegionHops && RegionFrom(b, e.obj, id, k - 1))
  {
    var y, t :| Within(b, m, y, k) && t in b.edges && SubIs(t, y) && PredIs(t, OntologyTerms) && t.obj == id;
    if m != y {
      var e :| e in b.edges && SubIs(e, m) && e.pred in RegionHops && Within(b, e.obj, y, k - 1);
      assert RegionFrom(b, e.obj, id, k - 1);
    }
  }

  /** `r` extends `acc` with nodes of ontology terms within `k` hops of `m`. */
  ghost predicate WalkSound(b: Blob, m: Id, acc: seq<Node>, r: seq<Node>, k: nat)
  {
    IsPrefix(acc, r) && forall i :: |acc| <= i < |r| ==> r[i] in b.nodes && RegionFrom(b, m, r[i].id, k)
  }

  /** `r` holds everything the edge `e` contributes when met from `m`. */
  ghost predicate EdgeCovered(b: Blob, e: Edge, m: Id, r: seq<Node>, k: nat)
  {
    && (SubIs(e, m) && PredIs(e, OntologyTerms) ==> forall n :: n in b.nodes && n.id == e.obj ==> n in r)
    && (SubIs(e, m) && e.pred in RegionHops ==>
         k > 0 && forall n :: n in b.nodes && RegionFrom(b, e.obj, n.id, k - 1) ==> n in r)
  }

  ghost predicate WalkCovers(b: Blob, es: seq<Edge>, m: Id, r: seq<Node>, k: nat)
  {
    forall e :: e in es ==> EdgeCovered(b, e, m, r, k)
  }

  lemma WalkSoundTrans(b: Blob, m: Id, a: seq<Node>, c: seq<Node>, d: seq<Node>, k: nat)
    requires WalkSound(b, m, a, c, k) && WalkSound(b, m, c, d, k)
    ensures WalkSound(b, m, a, d, k)
  {
    IsPrefixTrans(a, c, d);
    forall i | |a| <= i < |c|
      ensures d[i] == c[i]
    {
      assert d[..|c|][i] == d[i];
    }
  }

  lemma PrefixMembers<T>(a: seq<T>, c: seq<T>)
    requires IsPrefix(a, c)
    ensures forall x :: x in a ==> x in c
  {
    forall x | x in a
      ensures x in c
    {
      var i :| 0 <= i < |a| && a[i] == x;
      assert c[..|a|][i] == c[i];
    }
  }

  lemma EdgeCoveredGrows(b: Blob, e: Edge, m: Id, r: seq<Node>, r': seq<Node>, k: nat)
    requires EdgeCovered(b, e, m, r, k) && IsPrefix(r, r')
    ensures EdgeCovered(b, e, m, r', k)
  {
    PrefixMembers(r, r');
  }

  /** Covering every edge of the blob from `m` covers every term within `k` hops. */
  lemma CoversAll(b: Blob, m: Id, r: seq<Node>, k: nat)
    requires WalkCovers(b, b.edges, m, r, k)
    ensures forall n :: n in b.nodes && RegionFrom(b, m, n.id, k) ==> n in r
  {
    forall n | n in b.nodes && RegionFrom(b, m, n.id, k)
      ensures n in r
    {
      RegionFromUnfold(b, m, n.id, k);
      if exists t :: t in b.edges && SubIs(t, m) && PredIs(t, OntologyTerms) && t.obj == n.id {
        var t :| t in b.edges && SubIs(t, m) && PredIs(t, OntologyTerms) && t.obj == n.id;
        assert EdgeCovered(b, t, m, r, k);
      } else {
        var e :| e in b.edges && SubIs(e, m) && e.pred in RegionHops && RegionFrom(b, e.obj, n.id, k - 1);
        assert EdgeCovered(b, e, m, r, k);
      }
    }
  }

  /** `select(e, m)` inside `find_region`: a hop edge leaving `m` continues
      from its object, an `ontologyTerms` edge appends every node carrying
      its object's id. */
  function RegionStep(b: Blob, e: Edge, m: Id, acc: seq<Node>, fuel: nat): (r: Result<seq<Node>, Failure>)
    requires e in b.edges
    ensures r.Ok? ==> WalkSound(b, m, acc, r.value, fuel) && EdgeCovered(b, e, m, r.value, fuel)
    ensures r.Err? ==> r.error == RecursionLimit
    decreases fuel, 0
  {
    if SubIs(e, m) && e.pred in RegionHops then
      if fuel == 0 then Err(RecursionLimit)
      else
        var r := RegionWalk(b, b.edges, e.obj, acc, fuel - 1);
        if r.Ok? then
          forall i | |acc| <= i < |r.value|
            ensures RegionFrom(b, m, r.value[i].id, fuel)
          {
            RegionFromHop(b, m, e, r.value[i].id, fuel);
          }
          CoversAll(b, e.obj, r.value, fuel - 1);
          r
        else r
    else if SubIs(e, m) && PredIs(e, OntologyTerms) then
      var here := Filter(b.nodes, HasId(e.obj));
      forall i | |acc| <= i < |acc + here|
        ensures RegionFrom(b, m, (acc + here)[i].id, fuel)
      {
        assert (acc + here)[i] in here;
        RegionFromDirect(b, m, e, fuel);
      }
      assert IsPrefix(acc, acc + here);
      Ok(acc + here)
    else
      assert IsPrefix(acc, acc);
      Ok(acc)
  }

  /** `nifstd.ematch(blob, select, m)` inside `find_region`, over the edges `es`. */
  function RegionWalk(b: Blob, es: seq<Edge>, m: Id, acc: seq<Node>, fuel: nat): (r: Result<seq<Node>, Failure>)
    requires forall e :: e in es ==> e in b.edges
    ensures r.Ok? ==> WalkSound(b, m, acc, r.value, fuel) && WalkCovers(b, es, m, r.value, fuel)
    ensures r.Err? ==> r.error == RecursionLimit
    decreases fuel, |es|
  {
    if |es| == 0 then
      assert IsPrefix(acc, acc);
      Ok(acc)
    else
      var acc1 :- RegionStep(b, es[0], m, acc, fuel);
      var r := RegionWalk(b, es[1..], m, acc1, fuel);
      if r.Ok? then
        WalkSoundTrans(b, m, acc, acc1, r.value, fuel);
        EdgeCoveredGrows(b, es[0], m, acc1, r.value, fuel);
        assert es == [es[0]] + es[1..];
        r
      else r
  }

  /** Once the walk from `m` over the whole blob succeeds, what it appends is
      exactly the nodes of the ontology terms within `fuel` hops of `m`. */
  lemma RegionWalkExact(b: Blob, m: Id, acc: seq<Node>, fuel: nat, n: Node)
    requires RegionWalk(b, b.edges, m, acc, fuel).Ok?
    requires n !in acc
    ensures n in RegionWalk(b, b.edges, m, acc, fuel).value <==> n in b.nodes && RegionFrom(b, m, n.id, fuel)
  {
    var r := RegionWalk(b, b.edges, m, acc, fuel).value;
    if n in r {
      var i :| 0 <= i < |r| && r[i] == n;
    }
    CoversAll(b, m, r, fuel);
  }

  /** `Apinatomy.find_region(blob, edge)`: the nodes of the ontology terms of
      the regions and layers above the edge's subject. */
  function FindRegion(b: Blob, edge: Edge): (r: Result<seq<Node>, Failure>)
    ensures r.Ok? ==> forall n :: n in r.value <==> n in b.nodes && RegionFrom(b, edge.sub, n.id, Fuel(b))
    ensures r.Err? ==> r.error == RecursionLimit
  {
    var r := RegionWalk(b, b.edges, edge.sub, [], Fuel(b));
    if r.Ok? then
      assert forall n :: n in r.value <==> n in b.nodes && RegionFrom(b, edge.sub, n.id, Fuel(b)) by {
        forall n
          ensures n in r.value <==> n in b.nodes && RegionFrom(b, edge.sub, n.id, Fuel(b))
        {
          RegionWalkExact(b, edge.sub, [], Fuel(b), n);
        }
      }
      r
    else
      r
  }

  // ------------------------------------------------------ find_region_layer

  /** `bindex[id]` with `bindex = {n['id']: n for n in blob['nodes']}`; the
      `KeyError` is `MissingNode`. */
  function Bindex(b: Blob, id: Id): (r: Result<Node, Failure>)
    ensures r.Ok? ==> r.value in b.nodes && r.value.id == id
    ensures r.Err? <==> !HasNode(b, id)
    ensures r.Err? ==> r.error == MissingNode(id)
  {
    match Index(b.nodes, id)
    case None => Err(MissingNode(id))
    case Some(n) => Ok(n)
  }

  /** The lists and sets `find_region_layer`'s closures share: the regions,
      the ontology-term layers, the inherited-external layers, and the ids
      already taken as layers and as regions. */
  datatype Frl = Frl(collect: seq<Node>, layers: seq<Node>, ies: seq<Node>, donel: set<Id>, doner: set<Id>)

  const IePreds: set<string> := {InheritedExternal, InheritedExternalS}

  /** `id` is the object of an edge from `m` with one of `preds`. */
  ghost predicate TermOf(b: Blob, m: Id, id: Id, preds: set<string>)
  {
    exists t :: t in b.edges && SubIs(t, m) && t.pred in preds && t.obj == id
  }

  /** `id` is a `preds` term of a layer within `k` hops above `m`. */
  ghost predicate LayerFrom(b: Blob, m: Id, id: Id, k: nat, preds: set<string>)
  {
    exists y :: Within(b, m, y, k) && Layered(b, y) && TermOf(b, y, id, preds)
  }

  lemma LayerFromHop(b: Blob, m: Id, e: Edge, id: Id, k: nat, preds: set<string>)
    requires k > 0 && e in b.edges && SubIs(e, m) && e.pred in RegionHops
    requires LayerFrom(b, e.obj, id, k - 1, preds)
    ensures LayerFrom(b, m, id, k, preds)
  {
    var y :| Within(b, e.obj, y, k - 1) && Layered(b, y) && TermOf(b, y, id, preds);
    assert Within(b, m, y, k);
  }

  predicate DistinctIds(ns: seq<Node>)
  {
    forall i, j :: 0 <= i < j < |ns| ==> ns[i].id != ns[j].id
  }

  /** The shared state is consistent: every entry is a node of the blob
      whose id is marked done, and no id is taken twice. */
  ghost predicate FrlWf(b: Blob, st: Frl)
  {
    && (forall n :: n in st.collect ==> n in b.nodes && n.id in st.doner)
    && (forall n :: n in st.layers ==> n in b.nodes && n.id in st.donel)
    && (forall n :: n in st.ies ==> n in b.nodes && n.id in st.donel)
    && DistinctIds(st.collect) && DistinctIds(st.layers) && DistinctIds(st.ies)
    && (forall x, y :: x in st.layers && y in st.ies ==> x.id != y.id)
    && (forall x :: x in st.doner ==> exists n :: n in st.collect && n.id == x)
    && (forall x :: x in st.donel ==> exists n :: (n in st.layers || n in st.ies) && n.id == x)
  }

  /** `st'` extends each list of `st` with what lies within `k` hops of `m`. */
  ghost predicate FrlStep(b: Blob, st: Frl, st': Frl, m: Id, k: nat)
  {
    && IsPrefix(st.collect, st'.collect) && IsPrefix(st.layers, st'.layers) && IsPrefix(st.ies, st'.ies)
    && (forall i :: |st.collect| <= i < |st'.collect| ==> RegionFrom(b, m, st'.collect[i].id, k))
    && (forall i :: |st.layers| <= i < |st'.layers| ==> LayerFrom(b, m, st'.layers[i].id, k, {OntologyTerms}))
    && (forall i :: |st.ies| <= i < |st'.ies| ==> LayerFrom(b, m, st'.ies[i].id, k, IePreds))
  }

  lemma FrlStepRefl(b: Blob, st: Frl, m: Id, k: nat)
    ensures FrlStep(b, st, st, m, k)
  {
    assert IsPrefix(st.collect, st.collect) && IsPrefix(st.layers, st.layers) && IsPrefix(st.ies, st.ies);
  }

  lemma PrefixTail<T>(a: seq<T>, c: seq<T>, d: seq<T>, i: nat)
    requires IsPrefix(a, c) && IsPrefix(c, d) && |a| <= i < |c|
    ensures d[i] == c[i]
  {
    assert d[..|c|][i] == d[i];
  }

  lemma FrlStepTrans(b: Blob, s0: Frl, s1: Frl, s2: Frl, m: Id, k: nat)
    requires FrlStep(b, s0, s1, m, k) && FrlStep(b, s1, s2, m, k)
    ensures FrlStep(b, s0, s2, m, k)
  {
    IsPrefixTrans(s0.collect, s1.collect, s2.collect);
    IsPrefixTrans(s0.layers, s1.layers, s2.layers);
    IsPrefixTrans(s0.ies, s1.ies, s2.ies);
    forall i | |s0.collect| <= i < |s1.collect|
      ensures s2.collect[i] == s1.collect[i]
    {
      PrefixTail(s0.collect, s1.collect, s2.collect, i);
    }
    forall i | |s0.layers| <= i < |s1.layers|
      ensures s2.layers[i] == s1.layers[i]
    {
      PrefixTail(s0.layers, s1.layers, s2.layers, i);
    }
    forall i | |s0.ies| <= i < |s1.ies|
      ensures s2.ies[i] == s1.ies[i]
    {
      PrefixTail(s0.ies, s1.ies, s2.ies, i);
    }
  }

  lemma FrlStepHop(b: Blob, s0: Frl, s1: Frl, m: Id, e: Edge, k: nat)
    requires k > 0 && e in b.edges && SubIs(e, m) && e.pred in RegionHops
    requires FrlStep(b, s0, s1, e.obj, k - 1)
    ensures FrlStep(b, s0, s1, m, k)
  {
    forall i | |s0.collect| <= i < |s1.collect|
      ensures RegionFrom(b, m, s1.collect[i].id, k)
    {
      RegionFromHop(b, m, e, s1.collect[i].id, k);
    }
    forall i | |s0.layers| <= i < |s1.layers|
      ensures LayerFrom(b, m, s1.layers[i].id, k, {OntologyTerms})
    {
      LayerFromHop(b, m, e, s1.layers[i].id, k, {OntologyTerms});
    }
    forall i | |s0.ies| <= i < |s1.ies|
      ensures LayerFrom(b, m, s1.ies[i].id, k, IePreds)
    {
      LayerFromHop(b, m, e, s1.ies[i].id, k, IePreds);
    }
  }

  /** `st'` keeps the regions of `st` and extends its layer lists with terms of `m`. */
  ghost predicate TermGrows(b: Blob, m: Id, st: Frl, st': Frl)
  {
    && st'.collect == st.collect && st'.doner == st.doner
    && IsPrefix(st.layers, st'.layers) && IsPrefix(st.ies, st'.ies)
    && (forall i :: |st.layers| <= i < |st'.layers| ==> TermOf(b, m, st'.layers[i].id, {OntologyTerms}))
    && (forall i :: |st.ies| <= i < |st'.ies| ==> TermOf(b, m, st'.ies[i].id, IePreds))
  }

  lemma TermGrowsTrans(b: Blob, m: Id, s0: Frl, s1: Frl, s2: Frl)
    requires TermGrows(b, m, s0, s1) && TermGrows(b, m, s1, s2)
    ensures TermGrows(b, m, s0, s2)
  {
    IsPrefixTrans(s0.layers, s1.layers, s2.layers);
    IsPrefixTrans(s0.ies, s1.ies, s2.ies);
    forall i | |s0.layers| <= i < |s1.layers|
      ensures s2.layers[i] == s1.layers[i]
    {
      PrefixTail(s0.layers, s1.layers, s2.layers, i);
    }
    forall i | |s0.ies| <= i < |s1.ies|
      ensures s2.ies[i] == s1.ies[i]
    {
      PrefixTail(s0.ies, s1.ies, s2.ies, i);
    }
  }

  /** Terms of a layer `m` are layer terms within any number of hops of `m`. */
  lemma TermGrowsStep(b: Blob, m: Id, st: Frl, st': Frl, k: nat)
    requires TermGrows(b, m, st, st') && Layered(b, m)
    ensures FrlStep(b, st, st', m, k)
  {
    assert Within(b, m, m, k);
    assert IsPrefix(st.collect, st'.collect);
  }

  /** `select_term(e, m)`: a term edge of `m` whose object is not yet taken
      as a layer appends that object's node to the ontology-term layers or,
      for an inherited external, to the inherited ones. */
  function TermSelect(b: Blob, e: Edge, m: Id, st: Frl): (r: Result<Frl, Failure>)
    requires e in b.edges
    ensures r.Ok? ==> TermGrows(b, m, st, r.value)
    ensures r.Ok? && FrlWf(b, st) ==> FrlWf(b, r.value)
    ensures r.Ok? ==> DoneGrows(st, r.value) && (SubIs(e, m) && e.pred in ExternalPreds ==> e.obj in r.value.donel)
    ensures r.Err? <==> SubIs(e, m) && e.pred in ExternalPreds && e.obj !in st.donel && !HasNode(b, e.obj)
    ensures r.Err? ==> r.error == MissingNode(e.obj)
  {
    if SubIs(e, m) && e.pred in ExternalPreds && e.obj !in st.donel then
      var n :- Bindex(b, e.obj);
      if PredIs(e, OntologyTerms) then
        var st' := st.(layers := st.layers + [n], donel := st.donel + {e.obj});
        TermAdded(b, m, e, st.layers, n, {OntologyTerms});
        assert IsPrefix(st.ies, st'.ies);
        AddLayerWf(b, st, n);
        Ok(st')
      else
        var st' := st.(ies := st.ies + [n], donel := st.donel + {e.obj});
        TermAdded(b, m, e, st.ies, n, IePreds);
        assert IsPrefix(st.layers, st'.layers);
        AddIeWf(b, st, n);
        Ok(st')
    else
      assert IsPrefix(st.layers, st.layers) && IsPrefix(st.ies, st.ies);
      Ok(st)
  }

  lemma TermAdded(b: Blob, m: Id, e: Edge, ls: seq<Node>, n: Node, preds: set<string>)
    requires e in b.edges && SubIs(e, m) && e.pred in preds && n.id == e.obj
    ensures IsPrefix(ls, ls + [n])
    ensures forall i :: |ls| <= i < |ls + [n]| ==> TermOf(b, m, (ls + [n])[i].id, preds)
  {
    assert (ls + [n])[|ls|] == n;
  }

  lemma AppendDistinctIds(ns: seq<Node>, n: Node)
    requires DistinctIds(ns) && forall x :: x in ns ==> x.id != n.id
    ensures DistinctIds(ns + [n])
  {
    forall i, j | 0 <= i < j < |ns + [n]|
      ensures (ns + [n])[i].id != (ns + [n])[j].id
    {
      assert (ns + [n])[i] == ns[i];
      if j < |ns| {
        assert (ns + [n])[j] == ns[j];
      }
    }
  }

  lemma AddLayerWf(b: Blob, st: Frl, n: Node)
    requires n in b.nodes && n.id !in st.donel
    ensures FrlWf(b, st) ==> FrlWf(b, st.(layers := st.layers + [n], donel := st.donel + {n.id}))
  {
    if FrlWf(b, st) {
      AppendDistinctIds(st.layers, n);
    }
  }

  lemma AddIeWf(b: Blob, st: Frl, n: Node)
    requires n in b.nodes && n.id !in st.donel
    ensures FrlWf(b, st) ==> FrlWf(b, st.(ies := st.ies + [n], donel := st.donel + {n.id}))
  {
    if FrlWf(b, st) {
      AppendDistinctIds(st.ies, n);
    }
  }

  lemma AddRegionWf(b: Blob, st: Frl, n: Node)
    requires n in b.nodes && n.id !in st.doner
    ensures FrlWf(b, st) ==> FrlWf(b, st.(collect := st.collect + [n], doner := st.doner + {n.id}))
  {
    if FrlWf(b, st) {
      AppendDistinctIds(st.collect, n);
    }
  }

  /** `nifstd.ematch(blob, select_term, m)` over the edges `es`. */
  function TermScan(b: Blob, es: seq<Edge>, m: Id, st: Frl): (r: Result<Frl, Failure>)
    requires forall e :: e in es ==> e in b.edges
    ensures r.Ok? ==> TermGrows(b, m, st, r.value)
    ensures r.Ok? && FrlWf(b, st) ==> FrlWf(b, r.value)
    ensures r.Ok? ==> DoneGrows(st, r.value)
    ensures r.Ok? ==> forall t :: t in es && SubIs(t, m) && t.pred in ExternalPreds ==> t.obj in r.value.donel
    ensures r.Err? ==> r.error.MissingNode?
    decreases |es|
  {
    if |es| == 0 then
      assert IsPrefix(st.layers, st.layers) && IsPrefix(st.ies, st.ies);
      Ok(st)
    else
      var s1 :- TermSelect(b, es[0], m, st);
      var r := TermScan(b, es[1..], m, s1);
      if r.Ok? then
        TermScanJoin(b, es, m, st, s1, r.value);
        r
      else r
  }

  /** The first edge's step and the rest's scan compose to the whole scan's
      promises. */
  lemma TermScanJoin(b: Blob, es: seq<Edge>, m: Id, st: Frl, s1: Frl, s2: Frl)
    requires |es| > 0
    requires TermGrows(b, m, st, s1) && (FrlWf(b, st) ==> FrlWf(b, s1)) && DoneGrows(st, s1)
    requires SubIs(es[0], m) && es[0].pred in ExternalPreds ==> es[0].obj in s1.donel
    requires TermGrows(b, m, s1, s2) && (FrlWf(b, s1) ==> FrlWf(b, s2)) && DoneGrows(s1, s2)
    requires forall t :: t in es[1..] && SubIs(t, m) && t.pred in ExternalPreds ==> t.obj in s2.donel
    ensures TermGrows(b, m, st, s2) && (FrlWf(b, st) ==> FrlWf(b, s2)) && DoneGrows(st, s2)
    ensures forall t :: t in es && SubIs(t, m) && t.pred in ExternalPreds ==> t.obj in s2.donel
  {
    TermGrowsTrans(b, m, st, s1, s2);
    assert es == [es[0]] + es[1..];
  }

  /** `select(e, m)` inside `find_region_layer`: a hop climbs (see
      `FrlHop`); an `ontologyTerms` edge whose object is not yet a region
      appends that object's node. */
  function FrlSelect(b: Blob, e: Edge, m: Id, st: Frl, fuel: nat): (r: Result<Frl, Failure>)
    requires e in b.edges
    ensures r.Ok? ==> FrlStep(b, st, r.value, m, fuel)
    ensures r.Ok? && FrlWf(b, st) ==> FrlWf(b, r.value)
    ensures r.Ok? ==> DoneGrows(st, r.value) && FrlCovered(b, e, m, r.value, fuel)
    ensures r.Err? ==> r.error == RecursionLimit || r.error.MissingNode?
    decreases fuel, 1
  {
    if !SubIs(e, m) then
      FrlStepRefl(b, st, m, fuel);
      Ok(st)
    else if e.pred in RegionHops then
      FrlHop(b, e, m, st, fuel)
    else if PredIs(e, OntologyTerms) && e.obj !in st.doner then
      var n :- Bindex(b, e.obj);
      var st' := st.(collect := st.collect + [n], doner := st.doner + {e.obj});
      RegionFromDirect(b, m, e, fuel);
      AddRegionWf(b, st, n);
      assert st'.collect[|st.collect|] == n;
      assert IsPrefix(st.collect, st'.collect) && IsPrefix(st.layers, st'.layers) && IsPrefix(st.ies, st'.ies);
      Ok(st')
    else
      FrlStepRefl(b, st, m, fuel);
      Ok(st)
  }

  /** A hop edge leaving `m` inside `select`: at a layer (a `layerIn` edge)
      the layer's terms are scanned first; then the walk climbs to the
      object, as it does for `fasciculatesIn` and `endsIn`. */
  function FrlHop(b: Blob, e: Edge, m: Id, st: Frl, fuel: nat): (r: Result<Frl, Failure>)
    requires e in b.edges && SubIs(e, m) && e.pred in RegionHops
    ensures r.Ok? ==> FrlStep(b, st, r.value, m, fuel)
    ensures r.Ok? && FrlWf(b, st) ==> FrlWf(b, r.value)
    ensures r.Ok? ==> DoneGrows(st, r.value) && FrlCovered(b, e, m, r.value, fuel)
    ensures r.Err? ==> r.error == RecursionLimit || r.error.MissingNode?
    decreases fuel, 0
  {
    var s1 :- if PredIs(e, LayerIn) then TermScan(b, b.edges, m, st) else Ok(st);
    if fuel == 0 then Err(RecursionLimit)
    else
      var r := FrlScan(b, b.edges, e.obj, s1, fuel - 1);
      if r.Ok? then
        LayerLeg(b, e, m, st, s1, fuel);
        FrlStepHop(b, s1, r.value, m, e, fuel);
        FrlStepTrans(b, st, s1, r.value, m, fuel);
        ReachedAll(b, e.obj, r.value, fuel - 1);
        HopCovered(b, e, m, st, s1, r.value, fuel);
        r
      else r
  }

  /** The scan of a layer's terms before the climb stays within reach of `m`. */
  lemma LayerLeg(b: Blob, e: Edge, m: Id, st: Frl, s1: Frl, fuel: nat)
    requires e in b.edges && SubIs(e, m)
    requires if PredIs(e, LayerIn) then TermGrows(b, m, st, s1) else s1 == st
    ensures FrlStep(b, st, s1, m, fuel)
  {
    if PredIs(e, LayerIn) {
      assert Layered(b, m);
      TermGrowsStep(b, m, st, s1, fuel);
    } else {
      FrlStepRefl(b, st, m, fuel);
    }
  }

  /** `nifstd.ematch(blob, select, m)` inside `find_region_layer`, over the edges `es`. */
  function FrlScan(b: Blob, es: seq<Edge>, m: Id, st: Frl, fuel: nat): (r: Result<Frl, Failure>)
    requires forall e :: e in es ==> e in b.edges
    ensures r.Ok? ==> FrlStep(b, st, r.value, m, fuel)
    ensures r.Ok? && FrlWf(b, st) ==> FrlWf(b, r.value)
    ensures r.Ok? ==> DoneGrows(st, r.value) && forall e :: e in es ==> FrlCovered(b, e, m, r.value, fuel)
    ensures r.Err? ==> r.error == RecursionLimit || r.error.MissingNode?
    decreases fuel, |es| + 1
  {
    if |es| == 0 then
      FrlStepRefl(b, st, m, fuel);
      Ok(st)
    else
      var s1 :- FrlSelect(b, es[0], m, st, fuel);
      var r := FrlScan(b, es[1..], m, s1, fuel);
      if r.Ok? then
        FrlScanJoin(b, es, m, st, s1, r.value, fuel);
        r
      else r
  }

  /** The first edge's step and the rest's scan compose to the whole scan's
      promises. */
  lemma FrlScanJoin(b: Blob, es: seq<Edge>, m: Id, st: Frl, s1: Frl, s2: Frl, fuel: nat)
    requires |es| > 0
    requires FrlStep(b, st, s1, m, fuel) && (FrlWf(b, st) ==> FrlWf(b, s1))
    requires DoneGrows(st, s1) && FrlCovered(b, es[0], m, s1, fuel)
    requires FrlStep(b, s1, s2, m, fuel) && (FrlWf(b, s1) ==> FrlWf(b, s2))
    requires DoneGrows(s1, s2) && forall e :: e in es[1..] ==> FrlCovered(b, e, m, s2, fuel)
    ensures FrlStep(b, st, s2, m, fuel) && (FrlWf(b, st) ==> FrlWf(b, s2))
    ensures DoneGrows(st, s2) && forall e :: e in es ==> FrlCovered(b, e, m, s2, fuel)
  {
    FrlStepTrans(b, st, s1, s2, m, fuel);
    CoveredGrows(b, [es[0]], m, s1, s2, fuel);
    assert es == [es[0]] + es[1..];
  }

  /** Everything within `k` hops of `m` is marked done: every region term
      in `doner`, every term of a layer in `donel`. */
  ghost predicate Reached(b: Blob, m: Id, st: Frl, k: nat)
  {
    && (forall id :: RegionFrom(b, m, id, k) ==> id in st.doner)
    && (forall id :: LayerFrom(b, m, id, k, ExternalPreds) ==> id in st.donel)
  }

  /** `st` has marked done everything the edge `e` leads to when met from `m`. */
  ghost predicate FrlCovered(b: Blob, e: Edge, m: Id, st: Frl, k: nat)
  {
    && (SubIs(e, m) && PredIs(e, OntologyTerms) ==> e.obj in st.doner)
    && (SubIs(e, m) && PredIs(e, LayerIn) ==>
         forall t :: t in b.edges && SubIs(t, m) && t.pred in ExternalPreds ==> t.obj in st.donel)
    && (SubIs(e, m) && e.pred in RegionHops ==> k > 0 && Reached(b, e.obj, st, k - 1))
  }

  /** The done sets only grow. */
  ghost predicate DoneGrows(st: Frl, st': Frl)
  {
    st.doner <= st'.doner && st.donel <= st'.donel
  }

  lemma CoveredGrows(b: Blob, es: seq<Edge>, m: Id, st: Frl, st': Frl, k: nat)
    requires DoneGrows(st, st')
    requires forall e :: e in es ==> FrlCovered(b, e, m, st, k)
    ensures forall e :: e in es ==> FrlCovered(b, e, m, st', k)
  {
  }

  /** A layer term within `k` hops of `m` is a term of `m` itself, which is
      then a layer, or lies within `k - 1` hops of the object of a hop from `m`. */
  lemma LayerFromUnfold(b: Blob, m: Id, id: Id, k: nat)
    requires LayerFrom(b, m, id, k, ExternalPreds)
    ensures (Layered(b, m) && TermOf(b, m, id, ExternalPreds))
      || (k > 0 && exists e :: e in b.edges && SubIs(e, m) && e.pred in RegionHops && LayerFrom(b, e.obj, id, k - 1, ExternalPreds))
  {
    var y :| Within(b, m, y, k) && Layered(b, y) && TermOf(b, y, id, ExternalPreds);
    if m != y {
      var e :| e in b.edges && SubIs(e, m) && e.pred in RegionHops && Within(b, e.obj, y, k - 1);
      assert LayerFrom(b, e.obj, id, k - 1, ExternalPreds);
    }
  }

  /** Covering every edge of the blob from `m` marks done everything within `k` hops. */
  lemma ReachedAll(b: Blob, m: Id, st: Frl, k: nat)
    requires forall e :: e in b.edges ==> FrlCovered(b, e, m, st, k)
    ensures Reached(b, m, st, k)
  {
    forall id | RegionFrom(b, m, id, k)
      ensures id in st.doner
    {
      RegionFromUnfold(b, m, id, k);
      if exists t :: t in b.edges && SubIs(t, m) && PredIs(t, OntologyTerms) && t.obj == id {
        var t :| t in b.edges && SubIs(t, m) && PredIs(t, OntologyTerms) && t.obj == id;
        assert FrlCovered(b, t, m, st, k);
      } else {
        var e :| e in b.edges && SubIs(e, m) && e.pred in RegionHops && RegionFrom(b, e.obj, id, k - 1);
        assert FrlCovered(b, e, m, st, k);
      }
    }
    forall id | LayerFrom(b, m, id, k, ExternalPreds)
      ensures id in st.donel
    {
      LayerFromUnfold(b, m, id, k);
      if Layered(b, m) && TermOf(b, m, id, ExternalPreds) {
        var l := IsLayer(b, m)[0];
        var t :| t in b.edges && SubIs(t, m) && t.pred in ExternalPreds && t.obj == id;
        assert FrlCovered(b, l, m, st, k);
      } else {
        var e :| e in b.edges && SubIs(e, m) && e.pred in RegionHops && LayerFrom(b, e.obj, id, k - 1, ExternalPreds);
        assert FrlCovered(b, e, m, st, k);
      }
    }
  }

  /** A hop from `m`, after the scan of `m`'s terms (for a layer) and the
      climb from the hop's object, is covered. */
  lemma HopCovered(b: Blob, e: Edge, m: Id, st: Frl, s1: Frl, r: Frl, fuel: nat)
    requires fuel > 0 && SubIs(e, m) && e.pred in RegionHops
    requires DoneGrows(st, s1) && DoneGrows(s1, r) && Reached(b, e.obj, r, fuel - 1)
    requires PredIs(e, LayerIn) ==>
      forall t :: t in b.edges && SubIs(t, m) && t.pred in ExternalPreds ==> t.obj in s1.donel
    ensures DoneGrows(st, r) && FrlCovered(b, e, m, r, fuel)
  {
  }

  /** A layer list of nodes as `find_region_layer` holds it, where `None`
      stands for the placeholder layer of a region without layers. */
  function Somes(ns: seq<Node>): (r: seq<Option<Node>>)
    ensures |r| == |ns| && forall i :: 0 <= i < |ns| ==> r[i] == Some(ns[i])
    ensures forall l :: l in r ==> l.Some? && l.value in ns
  {
    var r := seq(|ns|, i requires 0 <= i < |ns| => Some(ns[i]));
    assert forall l :: l in r ==> l.Some? && l.value in ns by {
      forall l | l in r
        ensures l.Some? && l.value in ns
      {
        var i :| 0 <= i < |r| && r[i] == l;
        assert ns[i] in ns;
      }
    }
    r
  }

  /** The layers paired with the regions: the ontology-term layers when
      there are any, else the inherited ones, else one placeholder when there
      are regions. */
  function Chosen(collect: seq<Node>, layers: seq<Node>, ies: seq<Node>): seq<Option<Node>>
  {
    if |collect| > 0 && |layers| == 0 && |ies| == 0 then [None]
    else if |ies| > 0 && |layers| == 0 then Somes(ies)
    else Somes(layers)
  }

  /** A layer that survives the `EXCLUDED_LAYERS` filter; the placeholder always does. */
  predicate Kept(l: Option<Node>)
  {
    l.None? || l.value.id !in ExcludedLayers
  }

  function NotAmong(kept: seq<Option<Node>>): Node -> bool
  {
    (c: Node) => Some(c) !in kept
  }

  function Zip<A, B>(a: seq<A>, c: seq<B>): (r: seq<(A, B)>)
    requires |a| == |c|
    ensures |r| == |a| && forall i :: 0 <= i < |r| ==> r[i] == (a[i], c[i])
  {
    seq(|a|, i requires 0 <= i < |a| => (a[i], c[i]))
  }

  lemma FilterDistinctIds(ns: seq<Node>, p: Node -> bool)
    requires DistinctIds(ns)
    ensures DistinctIds(Filter(ns, p))
    decreases |ns|
  {
    if |ns| > 0 {
      DistinctTail(ns);
      FilterDistinctIds(ns[1..], p);
      if p(ns[0]) {
        DistinctCons(ns[0], Filter(ns[1..], p));
      }
    }
  }

  lemma DistinctTail(ns: seq<Node>)
    requires |ns| > 0 && DistinctIds(ns)
    ensures DistinctIds(ns[1..]) && forall x :: x in ns[1..] ==> x.id != ns[0].id
  {
    forall x | x in ns[1..]
      ensures x.id != ns[0].id
    {
      var k :| 0 <= k < |ns[1..]| && ns[1..][k] == x;
      assert ns[k + 1] == x;
    }
  }

  lemma DistinctCons(n: Node, ns: seq<Node>)
    requires DistinctIds(ns) && forall x :: x in ns ==> x.id != n.id
    ensures DistinctIds([n] + ns)
  {
    var f := [n] + ns;
    forall i, j | 0 <= i < j < |f|
      ensures f[i].id != f[j].id
    {
      assert f[j] == ns[j - 1];
      if i > 0 {
        assert f[i] == ns[i - 1];
      }
    }
  }

  function Firsts<A, B>(ps: seq<(A, B)>): (r: seq<A>)
    ensures |r| == |ps| && forall i :: 0 <= i < |ps| ==> r[i] == ps[i].0
  {
    seq(|ps|, i requires 0 <= i < |ps| => ps[i].0)
  }

  function Seconds<A, B>(ps: seq<(A, B)>): (r: seq<B>)
    ensures |r| == |ps| && forall i :: 0 <= i < |ps| ==> r[i] == ps[i].1
  {
    seq(|ps|, i requires 0 <= i < |ps| => ps[i].1)
  }

  /** The tail of `find_region_layer`: choose the layers, drop the excluded
      ones, drop regions that are also layers, and pair regions with layers
      position by position; unequal counts are the `ValueError`. */
  function ResolveLayers(collect: seq<Node>, layers: seq<Node>, ies: seq<Node>): (r: Result<seq<(Node, Option<Node>)>, Failure>)
    ensures var kept := Filter(Chosen(collect, layers, ies), Kept);
      r.Err? <==> |Filter(collect, NotAmong(kept))| != |kept|
    ensures r.Err? ==> r.error == LengthMismatch
    ensures r.Ok? ==> Seconds(r.value) == Filter(Chosen(collect, layers, ies), Kept)
    ensures r.Ok? ==> Firsts(r.value) == Filter(collect, NotAmong(Seconds(r.value)))
  {
    var kept := Filter(Chosen(collect, layers, ies), Kept);
    var regions := Filter(collect, NotAmong(kept));
    if |regions| != |kept| then Err(LengthMismatch)
    else
      var r := Zip(regions, kept);
      assert Firsts(r) == regions;
      assert Seconds(r) == kept;
      Ok(r)
  }

  /** The regions paired are the collected regions that are not among the
      paired layers, in their order and so each id once. */
  lemma ResolvedRegions(collect: seq<Node>, layers: seq<Node>, ies: seq<Node>)
    requires ResolveLayers(collect, layers, ies).Ok?
    ensures var r := ResolveLayers(collect, layers, ies).value;
      forall c :: c in collect ==> (c in Firsts(r) <==> Some(c) !in Seconds(r))
    ensures var r := ResolveLayers(collect, layers, ies).value;
      forall c :: c in Firsts(r) ==> c in collect
    ensures var r := ResolveLayers(collect, layers, ies).value;
      DistinctIds(collect) ==> DistinctIds(Firsts(r))
  {
    var r := ResolveLayers(collect, layers, ies).value;
    if DistinctIds(collect) {
      FilterDistinctIds(collect, NotAmong(Seconds(r)));
    }
  }

  /** The layers paired are kept ones, taken from the ontology-term layers
      when there are any and from the inherited ones otherwise; with neither,
      at most one region is paired, with the placeholder. */
  lemma ResolvedLayers(collect: seq<Node>, layers: seq<Node>, ies: seq<Node>)
    requires ResolveLayers(collect, layers, ies).Ok?
    ensures var r := ResolveLayers(collect, layers, ies).value;
      forall l :: l in Seconds(r) ==> Kept(l)
    ensures var r := ResolveLayers(collect, layers, ies).value;
      |layers| > 0 ==> forall l :: l in Seconds(r) ==> l.Some? && l.value in layers
    ensures var r := ResolveLayers(collect, layers, ies).value;
      |layers| == 0 && |ies| > 0 ==> forall l :: l in Seconds(r) ==> l.Some? && l.value in ies
    ensures var r := ResolveLayers(collect, layers, ies).value;
      |layers| == 0 && |ies| == 0 ==> |r| <= 1 && forall l :: l in Seconds(r) ==> l.None?
  {
    var r := ResolveLayers(collect, layers, ies).value;
    var chosen := Chosen(collect, layers, ies);
    assert Seconds(r) == Filter(chosen, Kept);
  }

  /** `r` pairs regions with layers as `find_region_layer` promises for
      `m`: regions are ontology terms within reach, each taken once; layers
      are kept terms of layers within reach; no region is paired where it is
      also a layer. */
  ghost predicate RegionLayers(b: Blob, m: Id, r: seq<(Node, Option<Node>)>)
  {
    && (forall c :: c in Firsts(r) ==> c in b.nodes && RegionFrom(b, m, c.id, Fuel(b)))
    && (forall l :: l in Seconds(r) && l.Some? ==>
         l.value in b.nodes && l.value.id !in ExcludedLayers && LayerFrom(b, m, l.value.id, Fuel(b), ExternalPreds))
    && DistinctIds(Firsts(r))
    && (forall c :: c in Firsts(r) ==> Some(c) !in Seconds(r))
  }

  /** `Apinatomy.find_region_layer(blob, edge, bindex)`: the (region, layer)
      pairs above the edge's subject. */
  function FindRegionLayer(b: Blob, edge: Edge): (r: Result<seq<(Node, Option<Node>)>, Failure>)
    ensures r.Ok? ==> RegionLayers(b, edge.sub, r.value)
    ensures r.Err? ==> r.error in {RecursionLimit, LengthMismatch} || r.error.MissingNode?
  {
    FrlWfEmpty(b);
    var st :- FrlScan(b, b.edges, edge.sub, Frl([], [], [], {}, {}), Fuel(b));
    var r := ResolveLayers(st.collect, st.layers, st.ies);
    if r.Ok? then
      ResolvedSound(b, edge.sub, st);
      r
    else r
  }

  lemma FrlWfEmpty(b: Blob)
    ensures FrlWf(b, Frl([], [], [], {}, {}))
  {
  }

  lemma LayerFromWiden(b: Blob, m: Id, id: Id, k: nat, preds: set<string>)
    requires LayerFrom(b, m, id, k, preds) && preds <= ExternalPreds
    ensures LayerFrom(b, m, id, k, ExternalPreds)
  {
    var y :| Within(b, m, y, k) && Layered(b, y) && TermOf(b, y, id, preds);
    var t :| t in b.edges && SubIs(t, y) && t.pred in preds && t.obj == id;
    assert TermOf(b, y, id, ExternalPreds);
  }

  lemma ResolvedSound(b: Blob, m: Id, st: Frl)
    requires FrlStep(b, Frl([], [], [], {}, {}), st, m, Fuel(b)) && FrlWf(b, st)
    requires ResolveLayers(st.collect, st.layers, st.ies).Ok?
    ensures RegionLayers(b, m, ResolveLayers(st.collect, st.layers, st.ies).value)
  {
    ResolvedRegions(st.collect, st.layers, st.ies);
    ResolvedRegionsSound(b, m, st);
    ResolvedLayersSound(b, m, st);
  }

  lemma ResolvedRegionsSound(b: Blob, m: Id, st: Frl)
    requires FrlStep(b, Frl([], [], [], {}, {}), st, m, Fuel(b)) && FrlWf(b, st)
    requires ResolveLayers(st.collect, st.layers, st.ies).Ok?
    ensures var r := ResolveLayers(st.collect, st.layers, st.ies).value;
      forall c :: c in Firsts(r) ==> c in b.nodes && RegionFrom(b, m, c.id, Fuel(b))
  {
    var r := ResolveLayers(st.collect, st.layers, st.ies).value;
    ResolvedRegions(st.collect, st.layers, st.ies);
    forall c | c in Firsts(r)
      ensures c in b.nodes && RegionFrom(b, m, c.id, Fuel(b))
    {
      var k :| 0 <= k < |st.collect| && st.collect[k] == c;
    }
  }

  lemma ResolvedLayersSound(b: Blob, m: Id, st: Frl)
    requires FrlStep(b, Frl([], [], [], {}, {}), st, m, Fuel(b)) && FrlWf(b, st)
    requires ResolveLayers(st.collect, st.layers, st.ies).Ok?
    ensures var r := ResolveLayers(st.collect, st.layers, st.ies).value;
      forall l :: l in Seconds(r) && l.Some? ==>
        l.value in b.nodes && l.value.id !in ExcludedLayers && LayerFrom(b, m, l.value.id, Fuel(b), ExternalPreds)
  {
    var r := ResolveLayers(st.collect, st.layers, st.ies).value;
    ResolvedLayers(st.collect, st.layers, st.ies);
    forall l: Option<Node> | l in Seconds(r) && l.Some?
      ensures l.value in b.nodes && l.value.id !in ExcludedLayers && LayerFrom(b, m, l.value.id, Fuel(b), ExternalPreds)
    {
      if |st.layers| > 0 {
        EntrySound(b, m, st, l.value, true);
      } else {
        EntrySound(b, m, st, l.value, false);
      }
    }
  }

  /** An ontology-term layer (`onto`) or inherited layer of a walk from `m`
      is a node and a term of a layer within reach. */
  lemma EntrySound(b: Blob, m: Id, st: Frl, n: Node, onto: bool)
    requires FrlStep(b, Frl([], [], [], {}, {}), st, m, Fuel(b)) && FrlWf(b, st)
    requires if onto then n in st.layers else n in st.ies
    ensures n in b.nodes && LayerFrom(b, m, n.id, Fuel(b), ExternalPreds)
  {
    if onto {
      var k :| 0 <= k < |st.layers| && st.layers[k] == n;
      LayerFromWiden(b, m, n.id, Fuel(b), {OntologyTerms});
    } else {
      var k :| 0 <= k < |st.ies| && st.ies[k] == n;
      LayerFromWiden(b, m, n.id, Fuel(b), IePreds);
    }
  }

  /** The lists `find_region_layer` resolves hold exactly what lies within
      reach of the edge's subject: an id is a collected region iff it is an
      ontology term within reach, and a listed layer iff it is a term of a
      layer within reach. After resolving, every region within reach is
      paired, either as a region or as a layer. */
  lemma FindRegionLayerExact(b: Blob, edge: Edge) returns (st: Frl)
    requires FindRegionLayer(b, edge).Ok?
    ensures FindRegionLayer(b, edge) == ResolveLayers(st.collect, st.layers, st.ies)
    ensures FrlWf(b, st)
    ensures forall id :: (exists c :: c in st.collect && c.id == id) <==> RegionFrom(b, edge.sub, id, Fuel(b))
    ensures forall id ::
      (exists l :: (l in st.layers || l in st.ies) && l.id == id) <==> LayerFrom(b, edge.sub, id, Fuel(b), ExternalPreds)
    ensures var r := FindRegionLayer(b, edge).value;
      forall id :: RegionFrom(b, edge.sub, id, Fuel(b)) ==>
        exists c :: c in b.nodes && c.id == id && (c in Firsts(r) || Some(c) in Seconds(r))
  {
    FrlWfEmpty(b);
    st := FrlScan(b, b.edges, edge.sub, Frl([], [], [], {}, {}), Fuel(b)).value;
    ReachedAll(b, edge.sub, st, Fuel(b));
    forall id | exists c :: c in st.collect && c.id == id
      ensures RegionFrom(b, edge.sub, id, Fuel(b))
    {
      var c :| c in st.collect && c.id == id;
      var k :| 0 <= k < |st.collect| && st.collect[k] == c;
    }
    forall id | exists l :: (l in st.layers || l in st.ies) && l.id == id
      ensures LayerFrom(b, edge.sub, id, Fuel(b), ExternalPreds)
    {
      var l :| (l in st.layers || l in st.ies) && l.id == id;
      EntrySound(b, edge.sub, st, l, l in st.layers);
    }
    ResolvedRegions(st.collect, st.layers, st.ies);
  }

  /** Every region `find_region_layer` pairs is one `find_region` finds. */
  lemma RegionLayersAreRegions(b: Blob, edge: Edge)
    requires FindRegionLayer(b, edge).Ok? && FindRegion(b, edge).Ok?
    ensures forall c :: c in Firsts(FindRegionLayer(b, edge).value) ==> c in FindRegion(b, edge).value
  {
  }
}
