/** The collapse worked through on the smallest chain instance: three edges
    in a line, `path[0] -> path[1] -> path[2] -> path[3]`, whose predicates
    are the chain in order, become the one edge from `path[0]` to `path[3]`
    named by the joined chain. The closing lemma instantiates it with the
    chain `target, rootOf, levels`. */
module CollapseExample {
  import opened Wrappers
  import opened Text
  import opened Seqs
  import opened Blobs
  import opened Collapse

  function Hop(u: Id, pred: string, v: Id): Edge
  {
    Edge(u, pred, v, None)
  }

  /** `d` is the line through the four distinct nodes of `path`, its `i`-th
      edge carrying the chain's `i`-th predicate. */
  ghost predicate IsLine(chain: Chain, d: seq<Edge>, path: Path)
  {
    && |chain| == 3 && |d| == 3 && |path| == 4 && Distinct(path)
    && d[0] == Hop(path[0], chain[0], path[1])
    && d[1] == Hop(path[1], chain[1], path[2])
    && d[2] == Hop(path[2], chain[2], path[3])
  }

  /** The joined name of a three-part chain is longer than each part, so it
      is none of them. */
  lemma NameLonger(chain: Chain)
    requires |chain| == 3
    ensures !InChains([chain], Join("-", chain))
    ensures forall x :: x in chain ==> !CollapsedName([chain], x)
  {
    var name := Join("-", chain);
    assert chain[1..][1..] == [chain[2]];
    assert Join("-", chain[1..]) == chain[1] + "-" + chain[2];
    assert name == chain[0] + "-" + Join("-", chain[1..]);
    assert forall x :: x in chain ==> |x| < |name|;
  }

  /** The line's edges leave distinct nodes, so they are distinct. */
  lemma LineDistinct(chain: Chain, d: seq<Edge>, path: Path)
    requires IsLine(chain, d, path)
    ensures Distinct(d)
  {
    assert forall i :: 0 <= i < 3 ==> d[i].sub == path[i];
  }

  /** Every edge of the line is a candidate, and the candidate graph is the
      line itself. */
  lemma Graph(chain: Chain, d: seq<Edge>, path: Path)
    requires IsLine(chain, d, path)
    ensures Distinct(d)
    ensures Candidates(d, chain) == d
    ensures Triples(d) == d
  {
    LineDistinct(chain, d, path);
    assert forall e :: e in d ==> e.pred in chain;
    FilterAll(d, InChain(chain));
    assert forall e :: e in d ==> e.meta == None;
  }

  /** The line links each node of the path to the next one, and nothing
      else. */
  lemma LinkedIff(chain: Chain, d: seq<Edge>, path: Path, u: Id, v: Id)
    requires IsLine(chain, d, path)
    ensures Linked(d, u, v) <==> exists i :: 0 <= i < 3 && u == path[i] && v == path[i + 1]
  {
    if Linked(d, u, v) {
      var e :| e in d && e.sub == u && e.obj == v;
      var i :| 0 <= i < 3 && d[i] == e;
    }
    if i :| 0 <= i < 3 && u == path[i] && v == path[i + 1] {
      assert d[i] in d;
    }
  }

  /** The line has one path of four nodes: `path`. */
  lemma OnlyPath(chain: Chain, d: seq<Edge>, path: Path, p: Path)
    requires IsLine(chain, d, path)
    requires |p| == 4 && Hops(d, p)
    ensures p == path
  {
    assert Linked(d, p[0], p[1]) && Linked(d, p[1], p[2]) && Linked(d, p[2], p[3]);
    LinkedIff(chain, d, path, p[0], p[1]);
    LinkedIff(chain, d, path, p[1], p[2]);
    LinkedIff(chain, d, path, p[2], p[3]);
    var i0 :| 0 <= i0 < 3 && p[0] == path[i0] && p[1] == path[i0 + 1];
    var i1 :| 0 <= i1 < 3 && p[1] == path[i1] && p[2] == path[i1 + 1];
    var i2 :| 0 <= i2 < 3 && p[2] == path[i2] && p[3] == path[i2 + 1];
    assert i1 == i0 + 1 && i2 == i1 + 1;
  }

  /** `path` is a path of the line. */
  lemma PathHops(chain: Chain, d: seq<Edge>, path: Path)
    requires IsLine(chain, d, path)
    ensures Hops(d, path)
  {
    forall i, j | 0 <= i < j < |path| && j == i + 1
      ensures Linked(d, path[i], path[j])
    {
      LinkedIff(chain, d, path, path[i], path[j]);
    }
  }

  /** A node with exactly one successor has exactly that neighbour. */
  lemma OneNeighbour(d: seq<Edge>, u: Id, v: Id)
    requires forall w :: Linked(d, u, w) <==> w == v
    ensures Neighbours(d, u) == [v]
  {
    var r := Neighbours(d, u);
    DistinctWithin(r, [v]);
    assert v in r;
  }

  lemma NoNeighbour(d: seq<Edge>, u: Id)
    requires forall w :: !Linked(d, u, w)
    ensures Neighbours(d, u) == []
  {
    DistinctWithin(Neighbours(d, u), []);
  }

  /** The node's one out-edge, at position `i`, to a node on the path. */
  lemma OneOutEdge(d: seq<Edge>, i: nat, path: Path)
    requires i < |d| && d[i].obj in path
    requires forall j :: 0 <= j < |d| && j != i ==> d[j].sub != d[i].sub
    ensures OutEdgesOnPath(d, d[i].sub, Neighbours(d, d[i].sub), path) == [d[i]]
  {
    var u, v := d[i].sub, d[i].obj;
    assert d[i] in d;
    OneNeighbour(d, u, v);
    FilterSingle(d, i, Between(u, v));
    assert [v][1..] == [];
  }

  /** A node with no out-edge contributes nothing. */
  lemma NoOutEdge(d: seq<Edge>, u: Id, path: Path)
    requires forall e :: e in d ==> e.sub != u
    ensures OutEdgesOnPath(d, u, Neighbours(d, u), path) == []
  {
    NoNeighbour(d, u);
  }

  /** `nxgt.edges(path)` from the `k`-th node of the path on. */
  lemma PathEdgesFrom(d: seq<Edge>, path: Path, k: nat)
    requires k < |path|
    ensures PathEdges(d, path, path[k..]) == OutEdgesOnPath(d, path[k], Neighbours(d, path[k]), path) + PathEdges(d, path, path[k + 1..])
  {
    assert path[k..][1..] == path[k + 1..];
  }

  /** Along the line the `k`-th node has its one edge. */
  lemma OutEdgeAt(chain: Chain, d: seq<Edge>, path: Path, k: nat)
    requires IsLine(chain, d, path) && k < 3
    ensures OutEdgesOnPath(d, path[k], Neighbours(d, path[k]), path) == [d[k]]
  {
    assert d[k].sub == path[k] && d[k].obj == path[k + 1];
    assert forall j :: 0 <= j < 3 ==> d[j].sub == path[j];
    OneOutEdge(d, k, path);
  }

  /** The line's last node has no out-edge. */
  lemma LastOutEdge(chain: Chain, d: seq<Edge>, path: Path)
    requires IsLine(chain, d, path)
    ensures OutEdgesOnPath(d, path[3], Neighbours(d, path[3]), path) == []
  {
    assert forall e :: e in d ==> e.sub != path[3];
    NoOutEdge(d, path[3], path);
  }

  /** Along the line each node but the last has its one edge, and the last
      none. */
  lemma LineOutEdges(chain: Chain, d: seq<Edge>, path: Path)
    requires IsLine(chain, d, path)
    ensures OutEdgesOnPath(d, path[0], Neighbours(d, path[0]), path) == [d[0]]
    ensures OutEdgesOnPath(d, path[1], Neighbours(d, path[1]), path) == [d[1]]
    ensures OutEdgesOnPath(d, path[2], Neighbours(d, path[2]), path) == [d[2]]
    ensures OutEdgesOnPath(d, path[3], Neighbours(d, path[3]), path) == []
  {
    OutEdgeAt(chain, d, path, 0);
    OutEdgeAt(chain, d, path, 1);
    OutEdgeAt(chain, d, path, 2);
    LastOutEdge(chain, d, path);
  }

  /** The edges among the path's nodes, in `nxgt.edges` order, are the line. */
  lemma AmongPath(chain: Chain, d: seq<Edge>, path: Path)
    requires IsLine(chain, d, path)
    ensures PathEdges(d, path, path) == d
  {
    LineOutEdges(chain, d, path);
    PathEdgesFrom(d, path, 0);
    PathEdgesFrom(d, path, 1);
    PathEdgesFrom(d, path, 2);
    PathEdgesFrom(d, path, 3);
    assert path[0..] == path && path[4..] == [];
    Singles(d);
  }

  /** A three-element list is its elements, one at a time. */
  lemma Singles(d: seq<Edge>)
    requires |d| == 3
    ensures [d[0]] + ([d[1]] + ([d[2]] + ([] + []))) == d
  {
  }

  /** The line's predicates spell the chain. */
  lemma SpellsChain(chain: Chain, d: seq<Edge>, path: Path)
    requires IsLine(chain, d, path)
    ensures Preds(d) == chain
  {
    var r := Preds(d);
    assert r[0] == chain[0] && r[1] == chain[1] && r[2] == chain[2];
  }

  /** The chain considers exactly the path through the line. */
  lemma Considered(chain: Chain, d: seq<Edge>, path: Path)
    requires IsLine(chain, d, path)
    ensures forall p :: p in ConsideredPaths(d, d, chain) <==> p == path
  {
    forall p | p in ConsideredPaths(d, d, chain)
      ensures p == path
    {
      OnlyPath(chain, d, path, p);
    }
    PathHops(chain, d, path);
    assert d[2] in d && d[2].pred == chain[2] && d[2].obj == path[3];
  }

  /** Each edge of the line climbs one step along the path. */
  lemma Climbs(chain: Chain, d: seq<Edge>, path: Path)
    requires IsLine(chain, d, path)
    ensures Acyclic(d)
  {
    var rank := (u: Id) => if u == path[0] then 0 else if u == path[1] then 1 else if u == path[2] then 2 else 3;
    forall e | e in d
      ensures rank(e.sub) < rank(e.obj)
    {
      var i :| 0 <= i < 3 && d[i] == e;
    }
    RankedAcyclic(d, rank);
  }

  /** What the chain's step sees on the line: the line as its acyclic
      candidate graph, the one considered path, and that path's whole
      collapse. */
  lemma ChainSees(chain: Chain, d: seq<Edge>, path: Path)
    requires IsLine(chain, d, path)
    ensures Candidates(d, chain) == d && Triples(d) == d && Acyclic(d)
    ensures forall p :: p in ConsideredPaths(d, d, chain) <==> p == path
    ensures CollapsePath(d, chain, path) == Ok(Zaps([Hop(path[0], Join("-", chain), path[3])], d))
  {
    Graph(chain, d, path);
    AmongPath(chain, d, path);
    SpellsChain(chain, d, path);
    Considered(chain, d, path);
    Climbs(chain, d, path);
  }

  /** Any outcome the chain's step may have on the line is a success whose
      only synthetic edge is the joined edge over the whole path. */
  lemma LineCollapsed(chain: Chain, d: seq<Edge>, path: Path, r: Result<Zaps, Failure>)
    requires IsLine(chain, d, path) && ChainCollapsed(d, chain, r)
    ensures r.Ok?
    ensures forall e :: e in r.value.added ==> e == Hop(path[0], Join("-", chain), path[3])
  {
    ChainSees(chain, d, path);
    assert d[0] in d;
    OnlyAdded(d, chain, path, Hop(path[0], Join("-", chain), path[3]), r.value.added);
  }

  /** When the one considered path adds just `added0`, every edge the
      chain's step adds is `added0`. */
  lemma OnlyAdded(d: seq<Edge>, chain: Chain, path: Path, added0: Edge, added: seq<Edge>)
    requires |chain| > 0 && |path| == |chain| + 1
    requires forall p :: p in ConsideredPaths(d, d, chain) <==> p == path
    requires CollapsePath(d, chain, path) == Ok(Zaps([added0], d))
    requires forall e :: e in added ==>
      exists p :: p in ConsideredPaths(d, d, chain) && CollapsePath(d, chain, p).Ok? && e in CollapsePath(d, chain, p).value.added
    ensures forall e :: e in added ==> e == added0
  {
  }

  /** The chain's step succeeds, and its only synthetic edge is the joined
      edge over the whole path. */
  lemma ChainStep(chain: Chain, d: seq<Edge>, path: Path)
    requires IsLine(chain, d, path)
    ensures CollapseChain(d, chain).Ok?
    ensures forall e :: e in CollapseChain(d, chain).value.added ==> e == Hop(path[0], Join("-", chain), path[3])
  {
    LineCollapsed(chain, d, path, CollapseChain(d, chain));
  }

  /** The line has no `meta`, so popping it changes nothing. */
  lemma Unstripped(chain: Chain, d: seq<Edge>, path: Path)
    requires IsLine(chain, d, path)
    ensures StripChain(d, chain) == d
    ensures StripEach([chain], d) == d
  {
  }

  /** `simplify` with the one chain: the line and the synthetic edges, less
      the removals. */
  lemma SimplifyStep(chain: Chain, d: seq<Edge>, path: Path) returns (gone: seq<Edge>)
    requires IsLine(chain, d, path)
    requires CollapseChain(d, chain).Ok?
    ensures Simplify([chain], d).Ok?
    ensures Simplify([chain], d).value == RemoveEach(d + CollapseChain(d, chain).value.added, gone)
  {
    Unstripped(chain, d, path);
    gone := OneChain(chain, d);
  }

  /** `simplify` with a single chain that succeeds: the stripped edges and
      the chain's synthetic edges, less the chain's removals. */
  lemma OneChain(chain: Chain, edges: seq<Edge>) returns (gone: seq<Edge>)
    requires CollapseChain(edges, chain).Ok?
    ensures gone == CollapseChain(edges, chain).value.removed
    ensures Simplify([chain], edges).Ok?
    ensures Simplify([chain], edges).value == RemoveEach(StripChain(edges, chain) + CollapseChain(edges, chain).value.added, gone)
  {
    var z := CollapseChain(edges, chain).value;
    gone := z.removed;
    assert [chain][0] == chain && [chain][1..] == [];
    assert [] + z.removed == gone;
    assert CollapseAll([chain], edges, []) == Ok((StripChain(edges, chain) + z.added, gone));
  }

  /** After `simplify`, the joined edge is present and every edge of the
      line has lost its copy. */
  lemma LineLoses(chain: Chain, d: seq<Edge>, path: Path)
    requires IsLine(chain, d, path) && Simplify([chain], d).Ok?
    ensures Hop(path[0], Join("-", chain), path[3]) in Simplify([chain], d).value
    ensures forall x :: x in d ==> multiset(Simplify([chain], d).value)[x] < multiset(d)[x]
  {
    Graph(chain, d, path);
    AmongPath(chain, d, path);
    SpellsChain(chain, d, path);
    NameLonger(chain);
    Considered(chain, d, path);
    Unstripped(chain, d, path);
    assert [chain][0] == chain;
    assert forall x :: x in d ==> x.pred in chain;
    WholePathCollapses([chain], d, path, 0);
  }

  /** The whole line collapses: the result holds the joined edge from the
      path's first node to its last and nothing else. */
  lemma LineCollapses(chain: Chain, d: seq<Edge>, path: Path)
    requires IsLine(chain, d, path)
    ensures Simplify([chain], d).Ok?
    ensures forall e :: e in Simplify([chain], d).value <==> e == Hop(path[0], Join("-", chain), path[3])
  {
    Graph(chain, d, path);
    ChainStep(chain, d, path);
    var gone := SimplifyStep(chain, d, path);
    LineLoses(chain, d, path);
    OnlyJoined(d, CollapseChain(d, chain).value.added, gone, Simplify([chain], d).value, Hop(path[0], Join("-", chain), path[3]));
  }

  /** When every input edge loses its one copy and every synthetic edge is
      `e0`, what is left is `e0` alone. */
  lemma OnlyJoined(d: seq<Edge>, added: seq<Edge>, gone: seq<Edge>, out: seq<Edge>, e0: Edge)
    requires out == RemoveEach(d + added, gone) && Distinct(d)
    requires forall e :: e in added ==> e == e0
    requires forall x :: x in d ==> multiset(out)[x] < multiset(d)[x]
    requires e0 in out
    ensures forall e :: e in out <==> e == e0
  {
    RemovedFrom(d + added, gone);
    forall e | e in out
      ensures e == e0
    {
      assert e in multiset(out);
      DistinctCount(d, e);
    }
  }

  /** The chain `target, rootOf, levels` over three hops `a -> b -> c -> z`
      leaves the single edge `a target-rootOf-levels z`. */
  lemma ThreeHops(a: Id, b: Id, c: Id, z: Id)
    requires a != b && a != c && a != z && b != c && b != z && c != z
    ensures var d := [Hop(a, Target, b), Hop(b, RootOf, c), Hop(c, Levels, z)];
      && Simplify([[Target, RootOf, Levels]], d).Ok?
      && forall e :: e in Simplify([[Target, RootOf, Levels]], d).value <==> e == Hop(a, Join("-", [Target, RootOf, Levels]), z)
  {
    var chain := [Target, RootOf, Levels];
    var path := [a, b, c, z];
    var d := [Hop(a, Target, b), Hop(b, RootOf, c), Hop(c, Levels, z)];
    assert IsLine(chain, d, path);
    LineCollapses(chain, d, path);
  }
}
