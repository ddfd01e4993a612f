/** `nifstd.simplify` and `nifstd.zap`: every multi-hop path whose predicates
    spell a collapse chain is replaced by one synthetic edge named by the
    dash-joined predicates.

    The networkx graph the source builds from a chain's candidate edges is
    modelled directly on those edges: `Triples` of the candidates is the rdflib graph,
    `Acyclic` is what `topological_sort` demands, `WalksTo` enumerates what
    `all_simple_paths` yields on the multigraph (one node path per choice of
    parallel edge), and `PathEdges` is `nxgt.edges(path)` restricted to edges
    with both ends on the path. Splitting into weakly connected components
    is dropped: a simple path never leaves its component, so the paths
    examined are the same; the model examines them in one sorted run. */
module Collapse {
  import opened Wrappers
  import opened Text
  import opened Seqs
  import opened Blobs
  import opened Nifstd

  type Chain = seq<string>
  type Path = seq<Id>

  /** `[e.p for e in oe2]`. */
  function Preds(es: seq<Edge>): (r: seq<string>)
    ensures |r| == |es|
    ensures forall i :: 0 <= i < |es| ==> r[i] == es[i].pred
  {
    seq(|es|, i requires 0 <= i < |es| => es[i].pred)
  }

  /** An edge whose predicate is in the chain. */
  function InChain(coll: Chain): Edge -> bool
  {
    (e: Edge) => e.pred in coll
  }

  /** `[e for e in blob['edges'] if e['pred'] in exclude]`. */
  function Candidates(edges: seq<Edge>, coll: Chain): (r: seq<Edge>)
    ensures forall e :: e in r <==> e in edges && e.pred in coll
  {
    Filter(edges, InChain(coll))
  }

  /** `c.pop('meta')` on every candidate; the pop is in place, so the blob's
      own edges lose their `meta`. */
  function StripChain(edges: seq<Edge>, coll: Chain): (r: seq<Edge>)
    ensures |r| == |edges|
    ensures forall i :: 0 <= i < |edges| ==> r[i] == if edges[i].pred in coll then Bare(edges[i]) else edges[i]
  {
    seq(|edges|, i requires 0 <= i < |edges| => if edges[i].pred in coll then Bare(edges[i]) else edges[i])
  }

  /** An edge carrying predicate `p`. */
  function WithPred(p: string): Edge -> bool
  {
    (e: Edge) => e.pred == p
  }

  /** The objects of the edges, in order. */
  function Objs(es: seq<Edge>): (r: seq<Id>)
    ensures |r| == |es|
    ensures forall i :: 0 <= i < |es| ==> r[i] == es[i].obj
    ensures forall x :: x in r <==> exists c :: c in es && c.obj == x
  {
    var r := seq(|es|, i requires 0 <= i < |es| => es[i].obj);
    assert forall c :: c in es ==> c.obj in r by {
      forall c | c in es
        ensures c.obj in r
      {
        var i :| 0 <= i < |es| && es[i] == c;
        assert r[i] == c.obj;
      }
    }
    r
  }

  /** `ends`: the objects of the candidates carrying the chain's last
      predicate, one entry per such candidate. */
  function Ends(cands: seq<Edge>, coll: Chain): (r: seq<Id>)
    requires |coll| > 0
    ensures forall x :: x in r <==> exists c :: c in cands && c.pred == coll[|coll| - 1] && c.obj == x
  {
    Objs(Filter(cands, WithPred(coll[|coll| - 1])))
  }

  function Successors(d: seq<Edge>, from: set<Id>): set<Id>
  {
    set e | e in d && e.sub in from :: e.obj
  }

  /** The nodes reachable from `from` in one to `k` steps. */
  function ReachIn(d: seq<Edge>, from: set<Id>, k: nat): set<Id>
    decreases k
  {
    if k == 0 then {} else Successors(d, from) + ReachIn(d, Successors(d, from), k - 1)
  }

  /** `nx.topological_sort` succeeds: no node reaches itself. A node on a
      cycle reaches itself along a simple cycle, which uses each edge at most
      once, so `|d|` steps are enough to find it. */
  predicate Acyclic(d: seq<Edge>)
  {
    forall e | e in d :: e.sub !in ReachIn(d, {e.sub}, |d|)
  }

  /** Consecutive edges of `d`, each ending where the next begins. */
  ghost predicate IsWalk(d: seq<Edge>, w: seq<Edge>)
  {
    && (forall i :: 0 <= i < |w| ==> w[i] in d)
    && (forall i, j :: 0 <= i < j < |w| && j == i + 1 ==> w[i].obj == w[j].sub)
  }

  /** A suffix of a walk is a walk. */
  lemma WalkSuffix(d: seq<Edge>, w: seq<Edge>, n: nat)
    requires IsWalk(d, w) && n <= |w|
    ensures IsWalk(d, w[n..])
  {
    var v := w[n..];
    forall i, j | 0 <= i < j < |v| && j == i + 1
      ensures v[i].obj == v[j].sub
    {
      assert v[i] == w[n + i] && v[j] == w[n + j];
    }
  }

  /** Two walks, the first ending where the second begins, make one. */
  lemma WalkJoin(d: seq<Edge>, a: seq<Edge>, b: seq<Edge>)
    requires IsWalk(d, a) && IsWalk(d, b)
    requires |a| > 0 && |b| > 0 ==> a[|a| - 1].obj == b[0].sub
    ensures IsWalk(d, a + b)
  {
    var w := a + b;
    forall i | 0 <= i < |w|
      ensures w[i] in d
    {
      if i < |a| {
        assert w[i] == a[i];
      } else {
        assert w[i] == b[i - |a|];
      }
    }
    forall i, j | 0 <= i < j < |w| && j == i + 1
      ensures w[i].obj == w[j].sub
    {
      if j < |a| {
        assert w[i] == a[i] && w[j] == a[j];
      } else if i >= |a| {
        assert w[i] == b[i - |a|] && w[j] == b[j - |a|];
      }
    }
  }

  /** `w` is a non-empty walk of `d` that returns to where it started. */
  ghost predicate ClosedWalk(d: seq<Edge>, w: seq<Edge>)
  {
    |w| > 0 && IsWalk(d, w) && w[0].sub == w[|w| - 1].obj
  }

  /** A node reached in one to `k` steps ends a walk of one to `k` edges. */
  lemma {:induction false} ReachWalk(d: seq<Edge>, from: set<Id>, k: nat, x: Id) returns (w: seq<Edge>)
    requires x in ReachIn(d, from, k)
    ensures 1 <= |w| <= k && IsWalk(d, w) && w[0].sub in from && w[|w| - 1].obj == x
    decreases k
  {
    var succ := Successors(d, from);
    if x in succ {
      var e :| e in d && e.sub in from && e.obj == x;
      w := [e];
    } else {
      var v := ReachWalk(d, succ, k - 1, x);
      var e :| e in d && e.sub in from && e.obj == v[0].sub;
      WalkJoin(d, [e], v);
      w := [e] + v;
    }
  }

  /** The end of a walk of one to `k` edges is reached in one to `k` steps. */
  lemma {:induction false} WalkReach(d: seq<Edge>, from: set<Id>, k: nat, w: seq<Edge>)
    requires 1 <= |w| <= k && IsWalk(d, w) && w[0].sub in from
    ensures w[|w| - 1].obj in ReachIn(d, from, k)
    decreases k
  {
    var succ := Successors(d, from);
    assert w[0] in d;
    assert w[0].obj in succ;
    if |w| > 1 {
      WalkSuffix(d, w, 1);
      assert w[0].obj == w[1].sub;
      WalkReach(d, succ, k - 1, w[1..]);
    }
  }

  /** A closed walk can be cut down to one of at most `|d|` edges: a longer
      one uses some edge twice, and the stretch between the two uses can go. */
  lemma {:induction false} ShortClosedWalk(d: seq<Edge>, w: seq<Edge>) returns (v: seq<Edge>)
    requires ClosedWalk(d, w)
    ensures ClosedWalk(d, v) && |v| <= |d|
    decreases |w|
  {
    if |w| <= |d| {
      v := w;
    } else {
      var i, j := Repeats(w, d);
      WalkPrefix(d, w, i);
      WalkSuffix(d, w, j);
      if i > 0 {
        assert w[i - 1].obj == w[i].sub;
      }
      WalkJoin(d, w[..i], w[j..]);
      var u := w[..i] + w[j..];
      assert u[|u| - 1] == w[|w| - 1];
      assert u[0].sub == w[0].sub by {
        if i == 0 {
          assert u[0] == w[j];
        } else {
          assert u[0] == w[0];
        }
      }
      v := ShortClosedWalk(d, u);
    }
  }

  /** `nx.topological_sort` fails exactly when the graph has a cycle: the
      candidate graph is not `Acyclic` if and only if some walk of it
      returns to its start. */
  lemma CyclicIff(d: seq<Edge>)
    ensures !Acyclic(d) <==> exists w :: ClosedWalk(d, w)
  {
    if !Acyclic(d) {
      var e :| e in d && e.sub in ReachIn(d, {e.sub}, |d|);
      var w := ReachWalk(d, {e.sub}, |d|, e.sub);
      assert ClosedWalk(d, w);
    }
    if w :| ClosedWalk(d, w) {
      var v := ShortClosedWalk(d, w);
      WalkReach(d, {v[0].sub}, |d|, v);
      assert v[0] in d;
    }
  }

  /** Along a walk of a graph whose edges all go up in `rank`, the rank rises. */
  lemma {:induction false} WalkRises(d: seq<Edge>, rank: Id -> int, w: seq<Edge>)
    requires forall e :: e in d ==> rank(e.sub) < rank(e.obj)
    requires |w| > 0 && IsWalk(d, w)
    ensures rank(w[0].sub) < rank(w[|w| - 1].obj)
    decreases |w|
  {
    assert w[0] in d;
    if |w| > 1 {
      WalkSuffix(d, w, 1);
      WalkRises(d, rank, w[1..]);
      assert w[0].obj == w[1].sub;
    }
  }

  /** A graph whose edges all go up in some ranking of the nodes is acyclic. */
  lemma RankedAcyclic(d: seq<Edge>, rank: Id -> int)
    requires forall e :: e in d ==> rank(e.sub) < rank(e.obj)
    ensures Acyclic(d)
  {
    forall w | |w| > 0 && IsWalk(d, w)
      ensures !ClosedWalk(d, w)
    {
      WalkRises(d, rank, w);
    }
    CyclicIff(d);
  }

  function Extend(ws: seq<seq<Edge>>, e: Edge): (r: seq<seq<Edge>>)
    ensures |r| == |ws|
    ensures forall i :: 0 <= i < |ws| ==> r[i] == ws[i] + [e]
  {
    seq(|ws|, i requires 0 <= i < |ws| => ws[i] + [e])
  }

  lemma WalkSnoc(d: seq<Edge>, w: seq<Edge>, e: Edge)
    requires IsWalk(d, w) && e in d
    requires |w| > 0 ==> w[|w| - 1].obj == e.sub
    ensures IsWalk(d, w + [e])
  {
    var w' := w + [e];
    forall i, j | 0 <= i < j < |w'| && j == i + 1
      ensures w'[i].obj == w'[j].sub
    {
      if j < |w| {
        assert w'[i] == w[i] && w'[j] == w[j];
      }
    }
  }

  /** A prefix of a walk is a walk. */
  lemma WalkPrefix(d: seq<Edge>, w: seq<Edge>, n: nat)
    requires IsWalk(d, w) && n <= |w|
    ensures IsWalk(d, w[..n])
  {
    var p := w[..n];
    forall i, j | 0 <= i < j < |p| && j == i + 1
      ensures p[i].obj == p[j].sub
    {
      assert p[i] == w[i] && p[j] == w[j];
    }
  }

  /** Every walk of `k` edges of `d` that ends at `end`, and nothing else.
      `all_simple_paths` on the multigraph yields a node path once for every
      such walk. */
  function WalksTo(d: seq<Edge>, k: nat, end: Id): (ws: seq<seq<Edge>>)
    ensures forall w: seq<Edge> :: w in ws ==> |w| == k && IsWalk(d, w) && (k > 0 ==> w[k - 1].obj == end)
    ensures forall w: seq<Edge> :: |w| == k && IsWalk(d, w) && (k > 0 ==> w[k - 1].obj == end) ==> w in ws
    decreases k, 1
  {
    if k == 0 then
      assert forall w: seq<Edge> :: |w| == 0 ==> w == [];
      [[]]
    else HopsInto(d, d, k, end)
  }

  /** The walks of `k` edges into `end` whose last edge is one of `rest`. */
  function HopsInto(d: seq<Edge>, rest: seq<Edge>, k: nat, end: Id): (ws: seq<seq<Edge>>)
    requires k > 0
    requires forall e :: e in rest ==> e in d
    ensures forall w: seq<Edge> :: w in ws ==> |w| == k && IsWalk(d, w) && w[k - 1].obj == end
    ensures forall w: seq<Edge> :: |w| == k && IsWalk(d, w) && w[k - 1].obj == end && w[k - 1] in rest ==> w in ws
    decreases k, 0, |rest|
  {
    if |rest| == 0 then []
    else
      var e := rest[0];
      var tail := HopsInto(d, rest[1..], k, end);
      assert forall x :: x in rest <==> x == e || x in rest[1..] by {
        assert rest == [e] + rest[1..];
      }
      if e.obj == end then
        var prefixes := WalksTo(d, k - 1, e.sub);
        ExtendWalks(d, prefixes, e, k);
        ExtendAll(d, prefixes, e, k);
        Extend(prefixes, e) + tail
      else
        tail
  }

  /** If `prefixes` holds every walk of `k - 1` edges into `e`'s subject,
      extending them by `e` gives every walk of `k` edges ending with `e`. */
  lemma ExtendAll(d: seq<Edge>, prefixes: seq<seq<Edge>>, e: Edge, k: nat)
    requires k > 0
    requires forall p: seq<Edge> :: |p| == k - 1 && IsWalk(d, p) && (k - 1 > 0 ==> p[k - 2].obj == e.sub) ==> p in prefixes
    ensures forall w: seq<Edge> :: |w| == k && IsWalk(d, w) && w[k - 1] == e ==> w in Extend(prefixes, e)
  {
    forall w: seq<Edge> | |w| == k && IsWalk(d, w) && w[k - 1] == e
      ensures w in Extend(prefixes, e)
    {
      var p := w[..k - 1];
      WalkPrefix(d, w, k - 1);
      if k - 1 > 0 {
        assert p[k - 2] == w[k - 2] && w[k - 2].obj == w[k - 1].sub;
      }
      assert p in prefixes;
      var i :| 0 <= i < |prefixes| && prefixes[i] == p;
      assert w == p + [e];
      assert Extend(prefixes, e)[i] == w;
    }
  }

  /** Walks of `k - 1` edges into `e`'s subject, each extended by `e`, are
      walks of `k` edges into `e`'s object. */
  lemma ExtendWalks(d: seq<Edge>, prefixes: seq<seq<Edge>>, e: Edge, k: nat)
    requires k > 0 && e in d
    requires forall w: seq<Edge> :: w in prefixes ==> |w| == k - 1 && IsWalk(d, w) && (k - 1 > 0 ==> w[k - 2].obj == e.sub)
    ensures forall w: seq<Edge> :: w in Extend(prefixes, e) ==> |w| == k && IsWalk(d, w) && w[k - 1].obj == e.obj
  {
    var here := Extend(prefixes, e);
    forall w: seq<Edge> | w in here
      ensures |w| == k && IsWalk(d, w) && w[k - 1].obj == e.obj
    {
      var i :| 0 <= i < |here| && here[i] == w;
      assert prefixes[i] in prefixes;
      WalkSnoc(d, prefixes[i], e);
    }
  }

  /** The nodes a walk visits. */
  function WalkNodes(w: seq<Edge>): (p: Path)
    requires |w| > 0
    ensures |p| == |w| + 1 && p[0] == w[0].sub
    ensures forall i :: 0 <= i < |w| ==> p[i + 1] == w[i].obj
  {
    [w[0].sub] + seq(|w|, i requires 0 <= i < |w| => w[i].obj)
  }

  /** `d` has an edge from `u` to `v`. */
  ghost predicate Linked(d: seq<Edge>, u: Id, v: Id)
  {
    exists e :: e in d && e.sub == u && e.obj == v
  }

  /** `d` has an edge from every node of `p` to the next one. */
  ghost predicate Hops(d: seq<Edge>, p: Path)
  {
    forall i, j :: 0 <= i < j < |p| && j == i + 1 ==> Linked(d, p[i], p[j])
  }

  lemma WalkHops(d: seq<Edge>, w: seq<Edge>)
    requires |w| > 0 && IsWalk(d, w)
    ensures Hops(d, WalkNodes(w))
  {
    var p := WalkNodes(w);
    forall i, j | 0 <= i < j < |p| && j == i + 1
      ensures Linked(d, p[i], p[j])
    {
      var e := w[i];
      assert e in d && e.obj == p[j];
      if i > 0 {
        var h := i - 1;
        assert w[h].obj == w[i].sub;
        assert p[h + 1] == w[h].obj;
      }
      assert e.sub == p[i];
    }
  }

  /** The node paths of the walks in `ws` that visit no node twice. */
  function SimplePaths(d: seq<Edge>, ws: seq<seq<Edge>>, k: nat, end: Id): (ps: seq<Path>)
    requires k > 0
    requires forall w: seq<Edge> :: w in ws ==> |w| == k && IsWalk(d, w) && w[k - 1].obj == end
    ensures forall p :: p in ps ==> |p| == k + 1 && Distinct(p) && p[k] == end && Hops(d, p)
    ensures forall w: seq<Edge> :: w in ws && Distinct(WalkNodes(w)) ==> WalkNodes(w) in ps
  {
    if |ws| == 0 then []
    else
      var w := ws[0];
      var here := if Distinct(WalkNodes(w)) then [WalkNodes(w)] else [];
      assert w in ws;
      WalkHops(d, w);
      here + SimplePaths(d, ws[1..], k, end)
  }

  /** A node path with an edge between each pair of neighbours is the path
      of some walk. */
  lemma {:induction false} WalkOf(d: seq<Edge>, p: Path) returns (w: seq<Edge>)
    requires |p| >= 2 && Hops(d, p)
    ensures |w| == |p| - 1 && IsWalk(d, w) && WalkNodes(w) == p
    decreases |p|
  {
    var n := |p|;
    assert Linked(d, p[n - 2], p[n - 1]);
    var e :| e in d && e.sub == p[n - 2] && e.obj == p[n - 1];
    if n == 2 {
      w := [e];
    } else {
      var q := p[..n - 1];
      forall i, j | 0 <= i < j < |q| && j == i + 1
        ensures Linked(d, q[i], q[j])
      {
        assert q[i] == p[i] && q[j] == p[j];
      }
      var v := WalkOf(d, q);
      assert WalkNodes(v)[|v|] == v[|v| - 1].obj;
      WalkSnoc(d, v, e);
      w := v + [e];
      forall i | 1 <= i < |p|
        ensures WalkNodes(w)[i] == p[i]
      {
        var h := i - 1;
        if h < |v| {
          assert w[h] == v[h] && WalkNodes(v)[h + 1] == q[h + 1];
        }
      }
      assert WalkNodes(w) == p;
    }
  }

  /** The paths of `k + 1` nodes `all_simple_paths` yields towards each entry
      of `ends`, an end listed twice contributing its paths twice: exactly
      the simple paths with an edge between neighbours ending at an end. */
  function PathsTo(d: seq<Edge>, k: nat, ends: seq<Id>): (ps: seq<Path>)
    requires k > 0
    ensures forall p :: p in ps ==> |p| == k + 1 && Distinct(p) && p[k] in ends && Hops(d, p)
    ensures forall p :: |p| == k + 1 && Distinct(p) && p[k] in ends && Hops(d, p) ==> p in ps
  {
    if |ends| == 0 then []
    else
      var here := SimplePaths(d, WalksTo(d, k, ends[0]), k, ends[0]);
      var rest := PathsTo(d, k, ends[1..]);
      SimplePathsTo(d, k, ends[0]);
      PathsJoin(d, k, ends, here, rest);
      here + rest
  }

  /** The paths into the first end followed by the paths into the others are
      the paths into any of the ends. */
  lemma PathsJoin(d: seq<Edge>, k: nat, ends: seq<Id>, here: seq<Path>, rest: seq<Path>)
    requires |ends| > 0
    requires forall p :: p in here ==> |p| == k + 1 && Distinct(p) && p[k] == ends[0] && Hops(d, p)
    requires forall p :: |p| == k + 1 && Distinct(p) && p[k] == ends[0] && Hops(d, p) ==> p in here
    requires forall p :: p in rest ==> |p| == k + 1 && Distinct(p) && p[k] in ends[1..] && Hops(d, p)
    requires forall p :: |p| == k + 1 && Distinct(p) && p[k] in ends[1..] && Hops(d, p) ==> p in rest
    ensures forall p :: p in here + rest ==> |p| == k + 1 && Distinct(p) && p[k] in ends && Hops(d, p)
    ensures forall p :: |p| == k + 1 && Distinct(p) && p[k] in ends && Hops(d, p) ==> p in here + rest
  {
    assert forall x :: x in ends <==> x == ends[0] || x in ends[1..] by {
      assert ends == [ends[0]] + ends[1..];
    }
  }

  /** Every simple path with an edge between neighbours ending at `end` is
      among the simple paths of the walks into `end`. */
  lemma SimplePathsTo(d: seq<Edge>, k: nat, end: Id)
    requires k > 0
    ensures forall p :: |p| == k + 1 && Distinct(p) && p[k] == end && Hops(d, p) ==>
      p in SimplePaths(d, WalksTo(d, k, end), k, end)
  {
    forall p | |p| == k + 1 && Distinct(p) && p[k] == end && Hops(d, p)
      ensures p in SimplePaths(d, WalksTo(d, k, end), k, end)
    {
      var w := WalkOf(d, p);
    }
  }

  function PathKey(p: Path): seq<string>
  {
    p
  }

  /** `sorted(paths)`: the simple paths of exactly `|coll| + 1` nodes that end
      where an edge carrying the chain's last predicate ends, in sorted order. */
  function ConsideredPaths(d: seq<Edge>, cands: seq<Edge>, coll: Chain): (ps: seq<Path>)
    requires |coll| > 0
    ensures SortedBy(ps, PathKey)
    ensures forall p :: p in ps ==> |p| == |coll| + 1 && Distinct(p) && Hops(d, p)
    ensures forall p :: p in ps ==> exists c :: c in cands && c.pred == coll[|coll| - 1] && c.obj == p[|coll|]
    ensures forall p ::
      (|p| == |coll| + 1 && Distinct(p) && Hops(d, p)
       && exists c :: c in cands && c.pred == coll[|coll| - 1] && c.obj == p[|coll|]) ==> p in ps
  {
    var ps := PathsTo(d, |coll|, Ends(cands, coll));
    var sorted := SortBy(ps, PathKey);
    assert forall p :: p in sorted <==> p in ps by {
      forall p
        ensures p in sorted <==> p in ps
      {
        assert p in sorted <==> p in multiset(sorted);
      }
    }
    sorted
  }

  /** An edge from `u` to `v`. */
  function Between(u: Id, v: Id): Edge -> bool
  {
    (e: Edge) => e.sub == u && e.obj == v
  }

  /** The parallel edges from `u` to `v`, in order. */
  function EdgesBetween(d: seq<Edge>, u: Id, v: Id): (r: seq<Edge>)
    ensures forall e :: e in r <==> e in d && e.sub == u && e.obj == v
  {
    Filter(d, Between(u, v))
  }

  /** The targets of `u`'s out-edges, each once, in first-appearance order:
      the key order of `u`'s adjacency dictionary in the multigraph. */
  function Neighbours(d: seq<Edge>, u: Id): (r: seq<Id>)
    ensures Distinct(r)
    ensures forall v :: v in r <==> Linked(d, u, v)
  {
    var out := Filter(d, (e: Edge) => e.sub == u);
    var objs := seq(|out|, i requires 0 <= i < |out| => out[i].obj);
    assert forall v :: v in objs <==> Linked(d, u, v) by {
      forall v | v in objs
        ensures Linked(d, u, v)
      {
        var i :| 0 <= i < |objs| && objs[i] == v;
        assert out[i] in out;
      }
      forall v | Linked(d, u, v)
        ensures v in objs
      {
        var e :| e in d && e.sub == u && e.obj == v;
        assert e in out;
        var i :| 0 <= i < |out| && out[i] == e;
        assert objs[i] == v;
      }
    }
    Dedup(objs)
  }

  /** The edges from `u` to those of `vs` that lie on the path. */
  function OutEdgesOnPath(d: seq<Edge>, u: Id, vs: seq<Id>, path: Path): (r: seq<Edge>)
    ensures forall e :: e in r ==> e in d && e.sub == u && e.obj in path
    ensures forall e :: e in d && e.sub == u && e.obj in vs && e.obj in path ==> e in r
  {
    if |vs| == 0 then []
    else
      assert forall v :: v in vs <==> v == vs[0] || v in vs[1..] by {
        assert vs == [vs[0]] + vs[1..];
      }
      (if vs[0] in path then EdgesBetween(d, u, vs[0]) else []) + OutEdgesOnPath(d, u, vs[1..], path)
  }

  /** `oe2`: the edges `nxgt.edges(path)` yields whose two ends both lie on
      the path (not only the hops of the path), node by node along `us`:
      exactly the edges of `d` from a node of `us` to a node of the path. */
  function PathEdges(d: seq<Edge>, path: Path, us: seq<Id>): (r: seq<Edge>)
    ensures forall e :: e in r ==> e in d && e.sub in us && e.obj in path
    ensures forall e :: e in d && e.sub in us && e.obj in path ==> e in r
  {
    if |us| == 0 then []
    else
      assert forall v :: v in us <==> v == us[0] || v in us[1..] by {
        assert us == [us[0]] + us[1..];
      }
      assert forall e :: e in d && e.sub == us[0] ==> Linked(d, us[0], e.obj);
      OutEdgesOnPath(d, us[0], Neighbours(d, us[0]), path) + PathEdges(d, path, us[1..])
  }

  /** Synthetic edges to append and collapsed edges to remove later. */
  datatype Zaps = Zaps(added: seq<Edge>, removed: seq<Edge>)

  /** `nifstd.zap`: one synthetic edge from the first to the last node of
      `nodes`, named by the dash-joined predicates; `oe` is handed back for
      removal once every chain has been processed. */
  function Zap(nodes: Path, preds: seq<string>, oe: seq<Edge>): Zaps
    requires |nodes| > 0
  {
    Zaps([Edge(nodes[0], Join("-", preds), nodes[|nodes| - 1], None)], oe)
  }

  /** `m` occurs somewhere in `c`. */
  ghost predicate Occurs(c: seq<string>, m: seq<string>)
  {
    exists k :: OccursAt(c, m, k)
  }

  /** A list no longer than `m` and different from it does not contain it. */
  lemma NoRoomToOccur(c: seq<string>, m: seq<string>)
    ensures |c| <= |m| && c != m ==> !Occurs(c, m)
  {
    if k :| OccursAt(c, m, k) {
      assert c[0..|c|] == c;
    }
  }

  /** `k` is the leftmost position where `m` occurs in `c`. */
  ghost predicate Leftmost(c: seq<string>, m: seq<string>, k: nat)
  {
    OccursAt(c, m, k) && forall k' :: 0 <= k' < k ==> !OccursAt(c, m, k')
  }

  /** The collapse decision for one path, given `oe2`, the edges among its
      nodes. When their predicates are exactly the chain, the whole path
      collapses; when they only contain the chain, just the leftmost
      `listIn` occurrence collapses, from the path node at its start to the
      path's last node (the node slice `path[i:j + 1]` always reaches the end
      of a path of `|coll| + 1` nodes, and is empty when `i` is past it). */
  function CollapseEdges(coll: Chain, path: Path, oe2: seq<Edge>): (r: Result<Zaps, Failure>)
    requires |coll| > 0 && |path| == |coll| + 1
    ensures r == Ok(Zaps([], [])) <==> !Occurs(Preds(oe2), coll)
    ensures r.Ok? && r.value != Zaps([], []) ==>
      exists k: nat :: k <= |coll| && Leftmost(Preds(oe2), coll, k)
        && r.value == Zaps([Edge(path[k], Join("-", coll), path[|coll|], None)], oe2[k..k + |coll|])
    ensures r.Err? ==> (r.error == EmptySubpath && Occurs(Preds(oe2), coll)
      && forall k :: 0 <= k <= |coll| ==> !OccursAt(Preds(oe2), coll, k))
  {
    var preds := Preds(oe2);
    if preds == coll then
      WholeOccurrence(preds, coll);
      Ok(Zap(path, preds, oe2))
    else
      match ListIn(preds, coll, true)
      case None =>
        NoRoomToOccur(preds, coll);
        Ok(Zaps([], []))
      case Some(i) =>
        var j := i + |coll|;
        var npath := Slice(path, i, j + 1);
        assert Leftmost(preds, coll, i);
        assert preds[i..j] == coll;
        ZapNodes(path, i, coll, oe2[i..j]);
        if |npath| == 0 then
          Err(EmptySubpath)
        else
          Ok(Zap(npath, preds[i..j], oe2[i..j]))
  }

  lemma WholeOccurrence(c: seq<string>, m: seq<string>)
    requires c == m
    ensures Leftmost(c, m, 0) && Occurs(c, m)
  {
    assert c[0..|m|] == m;
  }

  /** The node list `zap` receives for an occurrence at `i`,
      `path[i:i + |coll| + 1]`, is empty exactly when `i` is past the path,
      and otherwise runs from `path[i]` to the path's last node. */
  lemma ZapNodes(path: Path, i: nat, coll: Chain, oe: seq<Edge>)
    requires |path| == |coll| + 1
    ensures var nodes := Slice(path, i, i + |coll| + 1);
      && (|nodes| == 0 <==> i > |coll|)
      && (i <= |coll| ==> Zap(nodes, coll, oe) == Zaps([Edge(path[i], Join("-", coll), path[|coll|], None)], oe))
  {
  }

  /** One iteration of `for path in sorted(paths)`, on the edges of `d`
      among the path's nodes. When their predicates, in `nxgt.edges` order,
      are exactly the chain, the whole path collapses into one edge from its
      first to its last node and all of them are removed; otherwise the
      leftmost occurrence of the chain collapses, and nothing happens when
      the chain does not occur. */
  function CollapsePath(d: seq<Edge>, coll: Chain, path: Path): (r: Result<Zaps, Failure>)
    requires |coll| > 0 && |path| == |coll| + 1
    ensures r == CollapseEdges(coll, path, PathEdges(d, path, path))
    ensures r.Ok? ==> forall e :: e in r.value.removed ==> e in d && e.sub in path && e.obj in path
    ensures Preds(PathEdges(d, path, path)) == coll ==>
      r == Ok(Zaps([Edge(path[0], Join("-", coll), path[|coll|], None)], PathEdges(d, path, path)))
    ensures r == Ok(Zaps([], [])) <==> !Occurs(Preds(PathEdges(d, path, path)), coll)
    ensures r.Ok? && r.value != Zaps([], []) ==>
      && |r.value.added| == 1 && Preds(r.value.removed) == coll
      && exists k: nat :: k <= |coll| && r.value.added[0] == Edge(path[k], Join("-", coll), path[|coll|], None)
  {
    var oe2 := PathEdges(d, path, path);
    CollapseShape(coll, path, oe2);
    CollapseEdges(coll, path, oe2)
  }

  /** The collapse decision in outline: a whole-path match zaps the whole
      path; any other zap adds one edge into the path's last node and removes
      edges from among `oe2` whose predicates spell the chain. */
  lemma CollapseShape(coll: Chain, path: Path, oe2: seq<Edge>)
    requires |coll| > 0 && |path| == |coll| + 1
    ensures var r := CollapseEdges(coll, path, oe2);
      && (Preds(oe2) == coll ==> r == Ok(Zaps([Edge(path[0], Join("-", coll), path[|coll|], None)], oe2)))
      && (r.Ok? ==> forall e :: e in r.value.removed ==> e in oe2)
      && (r.Ok? && r.value != Zaps([], []) ==>
        && |r.value.added| == 1 && Preds(r.value.removed) == coll
        && exists k: nat :: k <= |coll| && r.value.added[0] == Edge(path[k], Join("-", coll), path[|coll|], None))
  {
    var r := CollapseEdges(coll, path, oe2);
    if r.Ok? && r.value != Zaps([], []) {
      var k: nat :| k <= |coll| && Leftmost(Preds(oe2), coll, k)
        && r.value == Zaps([Edge(path[k], Join("-", coll), path[|coll|], None)], oe2[k..k + |coll|]);
      OccurrenceSpells(coll, oe2, k);
    }
  }

  /** The edges of an occurrence of the chain spell the chain. */
  lemma OccurrenceSpells(coll: Chain, oe2: seq<Edge>, k: nat)
    requires OccursAt(Preds(oe2), coll, k)
    ensures Preds(oe2[k..k + |coll|]) == coll
    ensures forall e :: e in oe2[k..k + |coll|] ==> e in oe2
  {
    assert Preds(oe2)[k..k + |coll|] == coll;
  }

  /** Everything `z` adds and removes, `all` adds and removes too. */
  ghost predicate Within(z: Zaps, all: Zaps)
  {
    && (forall e :: e in z.added ==> e in all.added)
    && (forall e :: e in z.removed ==> e in all.removed)
  }

  /** The loop over the sorted paths of one chain: it fails exactly when
      some path's collapse fails, and otherwise gathers every path's
      synthetic and removed edges, and no others. */
  function CollapsePaths(d: seq<Edge>, coll: Chain, paths: seq<Path>): (r: Result<Zaps, Failure>)
    requires |coll| > 0
    requires forall p :: p in paths ==> |p| == |coll| + 1
    ensures r.Ok? <==> forall p :: p in paths ==> CollapsePath(d, coll, p).Ok?
    ensures r.Ok? ==> forall p :: p in paths ==> Within(CollapsePath(d, coll, p).value, r.value)
    ensures r.Ok? ==> forall e :: e in r.value.added ==>
      exists p :: p in paths && CollapsePath(d, coll, p).Ok? && e in CollapsePath(d, coll, p).value.added
    ensures r.Ok? ==> forall e :: e in r.value.added ==> e.pred == Join("-", coll) && e.meta == None
    ensures r.Ok? ==> forall e :: e in r.value.removed ==> e in d
    ensures r.Err? ==> r.error == EmptySubpath
  {
    if |paths| == 0 then Ok(Zaps([], []))
    else
      assert forall p :: p in paths <==> p == paths[0] || p in paths[1..] by {
        assert paths == [paths[0]] + paths[1..];
      }
      var z :- CollapsePath(d, coll, paths[0]);
      var zs :- CollapsePaths(d, coll, paths[1..]);
      PathAdds(d, coll, paths[0]);
      GatherStep((p: Path) requires |p| == |coll| + 1 => CollapsePath(d, coll, p), paths, z, zs, Join("-", coll), d);
      Ok(Zaps(z.added + zs.added, z.removed + zs.removed))
  }

  /** The first path's outcome joined to what the remaining paths gathered
      is what all the paths gather; `f` is the collapse of one path. */
  lemma GatherStep(f: Path --> Result<Zaps, Failure>, paths: seq<Path>, z: Zaps, zs: Zaps, name: string, d: seq<Edge>)
    requires |paths| > 0 && forall p :: p in paths ==> f.requires(p)
    requires f(paths[0]) == Ok(z)
    requires forall e :: e in z.added ==> e.pred == name && e.meta == None
    requires forall e :: e in z.removed ==> e in d
    requires forall p :: p in paths[1..] ==> f(p).Ok? && Within(f(p).value, zs)
    requires forall e :: e in zs.added ==> exists p :: p in paths[1..] && f(p).Ok? && e in f(p).value.added
    requires forall e :: e in zs.added ==> e.pred == name && e.meta == None
    requires forall e :: e in zs.removed ==> e in d
    ensures var all := Zaps(z.added + zs.added, z.removed + zs.removed);
      && (forall p :: p in paths ==> Within(f(p).value, all))
      && (forall e :: e in all.added ==> exists p :: p in paths && f(p).Ok? && e in f(p).value.added)
      && (forall e :: e in all.added ==> e.pred == name && e.meta == None)
      && (forall e :: e in all.removed ==> e in d)
  {
    var all := Zaps(z.added + zs.added, z.removed + zs.removed);
    assert forall p :: p in paths <==> p == paths[0] || p in paths[1..] by {
      assert paths == [paths[0]] + paths[1..];
    }
    forall p | p in paths
      ensures Within(f(p).value, all)
    {
      if p != paths[0] {
        assert Within(f(p).value, zs);
      }
    }
    forall e | e in all.added
      ensures exists p :: p in paths && f(p).Ok? && e in f(p).value.added
    {
      if e !in z.added {
        var p :| p in paths[1..] && f(p).Ok? && e in f(p).value.added;
        assert p in paths;
      }
    }
  }

  /** The synthetic edges of one path's collapse carry the chain's name and
      no `meta`. */
  lemma PathAdds(d: seq<Edge>, coll: Chain, path: Path)
    requires |coll| > 0 && |path| == |coll| + 1 && CollapsePath(d, coll, path).Ok?
    ensures forall e :: e in CollapsePath(d, coll, path).value.added ==> e.pred == Join("-", coll) && e.meta == None
  {
    var z := CollapsePath(d, coll, path).value;
    if z != Zaps([], []) {
      var k: nat :| k <= |coll| && z.added[0] == Edge(path[k], Join("-", coll), path[|coll|], None);
      assert |z.added| == 1;
    }
  }

  /** The outcome of one chain on `edges`: a cyclic candidate graph is the
      error; otherwise the result fails exactly when the collapse of one of
      the considered paths fails, and holds every path's collapse and only
      their synthetic edges. */
  ghost predicate ChainCollapsed(edges: seq<Edge>, coll: Chain, r: Result<Zaps, Failure>)
  {
    var cands := Candidates(edges, coll);
    var d := Triples(cands);
    && (r == Err(CyclicChainGraph) <==> |cands| > 0 && !Acyclic(d))
    && (|cands| > 0 && Acyclic(d) ==>
      && |coll| > 0
      && (r.Ok? <==> forall p :: p in ConsideredPaths(d, cands, coll) ==> CollapsePath(d, coll, p).Ok?)
      && (r.Ok? ==> forall p :: p in ConsideredPaths(d, cands, coll) ==> Within(CollapsePath(d, coll, p).value, r.value))
      && (r.Ok? ==> forall e :: e in r.value.added ==>
            exists p :: p in ConsideredPaths(d, cands, coll) && CollapsePath(d, coll, p).Ok? && e in CollapsePath(d, coll, p).value.added))
  }

  /** One iteration of `for coll in collapse`, on the edge list as the earlier
      chains left it (their synthetic edges appended, nothing removed yet).
      It fails on a cyclic candidate graph; otherwise it collapses each
      considered path, and fails exactly when one of those collapses fails. */
  function CollapseChain(edges: seq<Edge>, coll: Chain): (r: Result<Zaps, Failure>)
    ensures ChainCollapsed(edges, coll, r)
    ensures r.Ok? ==> forall e :: e in r.value.added ==> |coll| > 0 && e.pred == Join("-", coll) && e.meta == None
    ensures r.Ok? ==> forall e :: e in r.value.removed ==>
      e.pred in coll && e.meta == None && exists e0 :: e0 in edges && e0.pred in coll && e == Bare(e0)
    ensures (forall e :: e in edges ==> e.pred !in coll) ==> r == Ok(Zaps([], []))
    ensures r.Err? ==> r.error == CyclicChainGraph || r.error == EmptySubpath
  {
    var cands := Candidates(edges, coll);
    if |cands| == 0 then Ok(Zaps([], []))
    else
      assert cands[0] in cands;
      var d := Triples(cands);
      if !Acyclic(d) then Err(CyclicChainGraph)
      else
        var r := CollapsePaths(d, coll, ConsideredPaths(d, cands, coll));
        CandidateRemovals(edges, cands, coll, r);
        r
  }

  /** What the paths of a chain's candidate graph remove are candidates
      with their `meta` popped. */
  lemma CandidateRemovals(edges: seq<Edge>, cands: seq<Edge>, coll: Chain, r: Result<Zaps, Failure>)
    requires forall e :: e in cands <==> e in edges && e.pred in coll
    requires r.Ok? ==> forall e :: e in r.value.removed ==> e in Triples(cands)
    ensures r.Ok? ==> forall e :: e in r.value.removed ==>
      e.pred in coll && e.meta == None && exists e0 :: e0 in edges && e0.pred in coll && e == Bare(e0)
  {
  }

  // ------------------------------------------------ later chains

  /** Whether an edge passes `p` does not depend on its `meta`. */
  ghost predicate MetaBlind(p: Edge -> bool)
  {
    forall e :: p(e) == p(Bare(e))
  }

  /** Filtering by a `meta`-blind test keeps edges that agree once their
      `meta` is popped. */
  lemma {:induction false} FilterBares(a: seq<Edge>, b: seq<Edge>, p: Edge -> bool)
    requires Bares(a) == Bares(b) && MetaBlind(p)
    ensures Bares(Filter(a, p)) == Bares(Filter(b, p))
    decreases |a|
  {
    if |a| > 0 {
      assert Bares(a[1..]) == Bares(a)[1..] && Bares(b[1..]) == Bares(b)[1..];
      FilterBares(a[1..], b[1..], p);
      assert Bare(a[0]) == Bares(a)[0] == Bare(b[0]);
      assert p(a[0]) == p(b[0]);
      var ra := Filter(a[1..], p);
      var rb := Filter(b[1..], p);
      if p(a[0]) {
        BaresCons(a[0], ra);
        BaresCons(b[0], rb);
      }
    }
  }

  /** The `meta` pops leave the edges as they are once popped. */
  lemma StripBares(edges: seq<Edge>, coll: Chain)
    ensures Bares(StripChain(edges, coll)) == Bares(edges)
  {
  }

  /** A chain's result depends on its candidates only once their `meta` is
      popped: the graph, the path ends and the paths are the same. */
  lemma ChainAlike(a: seq<Edge>, b: seq<Edge>, coll: Chain)
    requires Bares(Candidates(a, coll)) == Bares(Candidates(b, coll))
    ensures CollapseChain(a, coll) == CollapseChain(b, coll)
  {
    var ca := Candidates(a, coll);
    var cb := Candidates(b, coll);
    assert |ca| == |Bares(ca)| == |cb|;
    assert Triples(ca) == Triples(cb);
    if |coll| > 0 {
      EndsAlike(ca, cb, coll);
      assert ConsideredPaths(Triples(ca), ca, coll) == ConsideredPaths(Triples(cb), cb, coll);
    }
  }

  /** The path ends are read off the candidates' objects, which the `meta`
      pop does not touch. */
  lemma EndsAlike(ca: seq<Edge>, cb: seq<Edge>, coll: Chain)
    requires Bares(ca) == Bares(cb) && |coll| > 0
    ensures Ends(ca, coll) == Ends(cb, coll)
  {
    var last := WithPred(coll[|coll| - 1]);
    FilterBares(ca, cb, last);
    ObjsBares(Filter(ca, last), Filter(cb, last));
  }

  /** Popping `meta` leaves the objects alone. */
  lemma ObjsBares(la: seq<Edge>, lb: seq<Edge>)
    requires Bares(la) == Bares(lb)
    ensures Objs(la) == Objs(lb)
  {
    assert |la| == |Bares(la)| == |lb|;
    forall i | 0 <= i < |la|
      ensures Objs(la)[i] == Objs(lb)[i]
    {
      assert Bare(la[i]) == Bares(la)[i] == Bares(lb)[i] == Bare(lb[i]);
    }
  }

  /** The `k`-th chain's candidates are unaffected by an earlier chain: its
      `meta` pops change no candidate once popped, and its synthetic edges,
      named by no predicate of the `k`-th chain, are not candidates. */
  lemma ChainTransfer(current: seq<Edge>, earlier: Chain, added: seq<Edge>, coll: Chain)
    requires forall e :: e in added ==> e.pred !in coll
    ensures CollapseChain(StripChain(current, earlier) + added, coll) == CollapseChain(current, coll)
  {
    var stripped := StripChain(current, earlier);
    FilterAppend(stripped, added, InChain(coll));
    FilterNone(added, InChain(coll));
    assert Candidates(stripped + added, coll) == Candidates(stripped, coll);
    StripBares(current, earlier);
    FilterBares(stripped, current, InChain(coll));
    ChainAlike(stripped + added, current, coll);
  }

  /** No chain before the `k`-th is named like a predicate of the `k`-th, so
      the synthetic edges of the earlier chains are never its candidates. */
  predicate NamedApart(collapse: seq<Chain>, k: nat)
    requires k < |collapse|
  {
    forall i :: 0 <= i < k && |collapse[i]| > 0 ==> Join("-", collapse[i]) !in collapse[k]
  }

  lemma NamedApartTail(collapse: seq<Chain>, k: nat)
    requires 0 < k < |collapse| && NamedApart(collapse, k)
    ensures NamedApart(collapse[1..], k - 1)
    ensures |collapse[0]| > 0 ==> Join("-", collapse[0]) !in collapse[k]
  {
    forall i | 0 <= i < k - 1 && |collapse[1..][i]| > 0
      ensures Join("-", collapse[1..][i]) !in collapse[1..][k - 1]
    {
      assert collapse[1..][i] == collapse[i + 1];
    }
  }

  /** Some chain mentions predicate `p`. */
  predicate InChains(collapse: seq<Chain>, p: string)
  {
    exists c :: c in collapse && p in c
  }

  /** `p` is the dash-joined name of some chain. */
  predicate CollapsedName(collapse: seq<Chain>, p: string)
  {
    exists c :: c in collapse && |c| > 0 && p == Join("-", c)
  }

  /** What the in-place `meta` pops of all chains do to one edge. */
  function StripAll(collapse: seq<Chain>, e: Edge): Edge
  {
    if InChains(collapse, e.pred) then Bare(e) else e
  }

  /** The edges simplify leaves alone: predicate in no chain, and not a
      chain's collapsed name. */
  function Untouched(collapse: seq<Chain>): Edge -> bool
  {
    (e: Edge) => !InChains(collapse, e.pred) && !CollapsedName(collapse, e.pred)
  }

  /** `out` is `current` with every chain's `meta` pops applied, followed by
      synthetic edges only. */
  ghost predicate Grown(collapse: seq<Chain>, current: seq<Edge>, out: seq<Edge>)
  {
    && |out| >= |current|
    && (forall i :: 0 <= i < |current| ==> out[i] == StripAll(collapse, current[i]))
    && (forall i :: |current| <= i < |out| ==> CollapsedName(collapse, out[i].pred) && out[i].meta == None)
  }

  lemma InChainsCons(collapse: seq<Chain>, p: string)
    requires |collapse| > 0
    ensures InChains(collapse, p) <==> p in collapse[0] || InChains(collapse[1..], p)
  {
    if InChains(collapse, p) {
      var c :| c in collapse && p in c;
      var i :| 0 <= i < |collapse| && collapse[i] == c;
      if i > 0 {
        assert collapse[1..][i - 1] == c;
      }
    }
    if InChains(collapse[1..], p) {
      var c :| c in collapse[1..] && p in c;
      assert c in collapse;
    }
    assert collapse[0] in collapse;
  }

  lemma CollapsedNameCons(collapse: seq<Chain>, p: string)
    requires |collapse| > 0
    ensures CollapsedName(collapse[1..], p) ==> CollapsedName(collapse, p)
    ensures |collapse[0]| > 0 && p == Join("-", collapse[0]) ==> CollapsedName(collapse, p)
  {
    if CollapsedName(collapse[1..], p) {
      var c :| c in collapse[1..] && |c| > 0 && p == Join("-", c);
      assert c in collapse;
    }
    assert collapse[0] in collapse;
  }

  /** Processing the first chain, then the others, grows `current` as
      processing all of them does. */
  lemma {:induction false} GrownStep(collapse: seq<Chain>, current: seq<Edge>, added: seq<Edge>, out: seq<Edge>)
    requires |collapse| > 0
    requires forall e :: e in added ==> |collapse[0]| > 0 && e.pred == Join("-", collapse[0]) && e.meta == None
    requires Grown(collapse[1..], StripChain(current, collapse[0]) + added, out)
    ensures Grown(collapse, current, out)
  {
    var next := StripChain(current, collapse[0]) + added;
    forall i | 0 <= i < |current|
      ensures out[i] == StripAll(collapse, current[i])
    {
      var e := current[i];
      InChainsCons(collapse, e.pred);
      assert out[i] == StripAll(collapse[1..], next[i]);
    }
    forall i | |current| <= i < |out|
      ensures CollapsedName(collapse, out[i].pred) && out[i].meta == None
    {
      CollapsedNameCons(collapse, out[i].pred);
      if i < |next| {
        var e := next[i];
        assert e == added[i - |current|] && e in added;
        InChainsCons(collapse, e.pred);
        assert out[i] == StripAll(collapse[1..], e);
      }
    }
  }

  /** The chains in turn: the edge list grows by each chain's synthetic
      edges, and the collapsed edges pile up for removal at the end. */
  function CollapseAll(collapse: seq<Chain>, current: seq<Edge>, removed: seq<Edge>): (r: Result<(seq<Edge>, seq<Edge>), Failure>)
    ensures r.Ok? ==> Grown(collapse, current, r.value.0)
    ensures r.Ok? ==> forall e :: e in r.value.1 ==> e in removed || InChains(collapse, e.pred)
    ensures r.Ok? ==> forall e :: e in removed ==> e in r.value.1
    ensures r.Ok? && |collapse| > 0 ==>
      && CollapseChain(current, collapse[0]).Ok?
      && Within(CollapseChain(current, collapse[0]).value, Zaps(r.value.0, r.value.1))
    ensures r.Ok? ==> forall k :: 0 <= k < |collapse| && NamedApart(collapse, k) ==>
      && CollapseChain(current, collapse[k]).Ok?
      && Within(CollapseChain(current, collapse[k]).value, Zaps(r.value.0, r.value.1))
    ensures r.Err? ==> r.error == CyclicChainGraph || r.error == EmptySubpath
    decreases |collapse|
  {
    if |collapse| == 0 then Ok((current, removed))
    else
      var z :- CollapseChain(current, collapse[0]);
      var next := StripChain(current, collapse[0]) + z.added;
      var r := CollapseAll(collapse[1..], next, removed + z.removed);
      if r.Ok? then
        CollapseAllStep(collapse, current, removed, z, r.value);
        GrownKeepsBare(collapse[1..], StripChain(current, collapse[0]), z.added, r.value.0);
        LaterChains(collapse, current, z, Zaps(r.value.0, r.value.1));
        r
      else
        r
  }

  /** The chains after the first see the edges the first left behind, and
      collapse them as they would the original edges. */
  lemma LaterChains(collapse: seq<Chain>, current: seq<Edge>, z: Zaps, out: Zaps)
    requires |collapse| > 0 && CollapseChain(current, collapse[0]) == Ok(z)
    requires Within(z, out)
    requires forall k :: 0 <= k < |collapse| - 1 && NamedApart(collapse[1..], k) ==>
      && CollapseChain(StripChain(current, collapse[0]) + z.added, collapse[1..][k]).Ok?
      && Within(CollapseChain(StripChain(current, collapse[0]) + z.added, collapse[1..][k]).value, out)
    ensures forall k :: 0 <= k < |collapse| && NamedApart(collapse, k) ==>
      CollapseChain(current, collapse[k]).Ok? && Within(CollapseChain(current, collapse[k]).value, out)
  {
    forall k | 0 <= k < |collapse| && NamedApart(collapse, k)
      ensures CollapseChain(current, collapse[k]).Ok? && Within(CollapseChain(current, collapse[k]).value, out)
    {
      if k > 0 {
        NamedApartTail(collapse, k);
        assert collapse[1..][k - 1] == collapse[k];
        ChainTransfer(current, collapse[0], z.added, collapse[k]);
      }
    }
  }

  /** `meta`-less edges appended to the list survive the `meta` pops. */
  lemma GrownKeepsBare(collapse: seq<Chain>, pre: seq<Edge>, added: seq<Edge>, out: seq<Edge>)
    requires Grown(collapse, pre + added, out)
    requires forall e :: e in added ==> e.meta == None
    ensures forall e :: e in added ==> e in out
  {
    forall e | e in added
      ensures e in out
    {
      var j :| 0 <= j < |added| && added[j] == e;
      assert (pre + added)[|pre| + j] == e;
      assert out[|pre| + j] == StripAll(collapse, e);
    }
  }

  lemma CollapseAllStep(collapse: seq<Chain>, current: seq<Edge>, removed: seq<Edge>, z: Zaps, out: (seq<Edge>, seq<Edge>))
    requires |collapse| > 0 && CollapseChain(current, collapse[0]) == Ok(z)
    requires Grown(collapse[1..], StripChain(current, collapse[0]) + z.added, out.0)
    requires forall e :: e in out.1 ==> e in removed + z.removed || InChains(collapse[1..], e.pred)
    ensures Grown(collapse, current, out.0)
    ensures forall e :: e in out.1 ==> e in removed || InChains(collapse, e.pred)
  {
    GrownStep(collapse, current, z.added, out.0);
    RemovedStep(collapse, removed, z.removed, out.1);
  }

  /** What one chain removes is in that chain, so in the list of chains. */
  lemma RemovedStep(collapse: seq<Chain>, removed: seq<Edge>, zapped: seq<Edge>, out: seq<Edge>)
    requires |collapse| > 0
    requires forall e :: e in zapped ==> e.pred in collapse[0]
    requires forall e :: e in out ==> e in removed + zapped || InChains(collapse[1..], e.pred)
    ensures forall e :: e in out ==> e in removed || InChains(collapse, e.pred)
  {
    forall e | e in out
      ensures e in removed || InChains(collapse, e.pred)
    {
      InChainsCons(collapse, e.pred);
    }
  }

  lemma {:induction false} FilterStripAll(collapse: seq<Chain>, edges: seq<Edge>, s: seq<Edge>)
    requires |s| == |edges|
    requires forall i :: 0 <= i < |edges| ==> s[i] == StripAll(collapse, edges[i])
    ensures Filter(s, Untouched(collapse)) == Filter(edges, Untouched(collapse))
    decreases |edges|
  {
    if |edges| > 0 {
      FilterStripAll(collapse, edges[1..], s[1..]);
    }
  }

  lemma {:induction false} FilterNoneUntouched(collapse: seq<Chain>, s: seq<Edge>)
    requires forall e :: e in s ==> CollapsedName(collapse, e.pred)
    ensures Filter(s, Untouched(collapse)) == []
  {
  }

  /** `nifstd.simplify(collapse, edges)`. Edges whose predicate is in no chain
      (and is no chain's collapsed name) come out unchanged and in their
      order; every other edge in the result is an input edge, its `meta`
      popped if its predicate is in a chain, or a synthetic edge named after
      a chain. */
  function Simplify(collapse: seq<Chain>, edges: seq<Edge>): (r: Result<seq<Edge>, Failure>)
    ensures r.Ok? ==> Filter(r.value, Untouched(collapse)) == Filter(edges, Untouched(collapse))
    ensures r.Ok? ==> forall e :: e in r.value ==>
      (exists e0 :: e0 in edges && e == StripAll(collapse, e0)) || (CollapsedName(collapse, e.pred) && e.meta == None)
    ensures r.Err? ==> r.error == CyclicChainGraph || r.error == EmptySubpath
  {
    var p :- CollapseAll(collapse, edges, []);
    UntouchedSurvive(collapse, edges, p.0, p.1);
    RemovedFrom(p.0, p.1);
    Ok(RemoveEach(p.0, p.1))
  }

  /** The removals take no untouched edge away, and growing leaves them as
      they were. */
  lemma UntouchedSurvive(collapse: seq<Chain>, edges: seq<Edge>, all: seq<Edge>, gone: seq<Edge>)
    requires Grown(collapse, edges, all)
    requires forall e :: e in gone ==> InChains(collapse, e.pred)
    ensures Filter(RemoveEach(all, gone), Untouched(collapse)) == Filter(edges, Untouched(collapse))
  {
    assert all == all[..|edges|] + all[|edges|..];
    FilterStripAll(collapse, edges, all[..|edges|]);
    FilterNoneUntouched(collapse, all[|edges|..]);
    FilterAppend(all[..|edges|], all[|edges|..], Untouched(collapse));
    FilterRemoveEach(all, gone, Untouched(collapse));
  }

  lemma RemovedFrom(all: seq<Edge>, gone: seq<Edge>)
    ensures forall e :: e in RemoveEach(all, gone) ==> e in all
  {
    forall e | e in RemoveEach(all, gone)
      ensures e in all
    {
      assert e in multiset(RemoveEach(all, gone));
    }
  }

  /** `StripAll` applied to every edge. */
  function StripEach(collapse: seq<Chain>, edges: seq<Edge>): (r: seq<Edge>)
    ensures |r| == |edges|
    ensures forall i :: 0 <= i < |edges| ==> r[i] == StripAll(collapse, edges[i])
  {
    seq(|edges|, i requires 0 <= i < |edges| => StripAll(collapse, edges[i]))
  }

  /** When a considered path's edges spell the chain exactly, the chain's
      result adds the synthetic edge over the whole path and removes the
      path's edges. */
  lemma ChainZapsWhole(edges: seq<Edge>, coll: Chain, path: Path)
    requires |coll| > 0
    requires path in ConsideredPaths(Triples(Candidates(edges, coll)), Candidates(edges, coll), coll)
    requires Preds(PathEdges(Triples(Candidates(edges, coll)), path, path)) == coll
    requires CollapseChain(edges, coll).Ok?
    ensures Edge(path[0], Join("-", coll), path[|coll|], None) in CollapseChain(edges, coll).value.added
    ensures forall x :: x in PathEdges(Triples(Candidates(edges, coll)), path, path) ==> x in CollapseChain(edges, coll).value.removed
  {
    var cands := Candidates(edges, coll);
    var d := Triples(cands);
    var oe2 := PathEdges(d, path, path);
    var e := Edge(path[0], Join("-", coll), path[|coll|], None);
    assert CollapsePath(d, coll, path) == Ok(Zaps([e], oe2));
  }

  /** The copies of a non-synthetic edge in the grown list are those in the
      stripped input. */
  lemma GrownCount(collapse: seq<Chain>, edges: seq<Edge>, all: seq<Edge>, x: Edge)
    requires Grown(collapse, edges, all)
    requires !CollapsedName(collapse, x.pred)
    ensures multiset(all)[x] == multiset(StripEach(collapse, edges))[x]
  {
    assert all == all[..|edges|] + all[|edges|..];
    assert all[..|edges|] == StripEach(collapse, edges);
    assert x !in all[|edges|..];
  }

  /** What `simplify` returns, in terms of the chains' grown edge list and
      removal list. */
  lemma SimplifyParts(collapse: seq<Chain>, edges: seq<Edge>) returns (p: (seq<Edge>, seq<Edge>))
    requires |collapse| > 0 && Simplify(collapse, edges).Ok?
    ensures Simplify(collapse, edges).value == RemoveEach(p.0, p.1)
    ensures Grown(collapse, edges, p.0)
    ensures forall e :: e in p.1 ==> InChains(collapse, e.pred)
    ensures CollapseChain(edges, collapse[0]).Ok? && Within(CollapseChain(edges, collapse[0]).value, Zaps(p.0, p.1))
    ensures forall k :: 0 <= k < |collapse| && NamedApart(collapse, k) ==>
      CollapseChain(edges, collapse[k]).Ok? && Within(CollapseChain(edges, collapse[k]).value, Zaps(p.0, p.1))
  {
    p := CollapseAll(collapse, edges, []).value;
  }

  /** An edge of the grown list whose name is in no chain is never removed. */
  lemma NotRemoved(collapse: seq<Chain>, all: seq<Edge>, gone: seq<Edge>, e: Edge)
    requires forall x :: x in gone ==> InChains(collapse, x.pred)
    requires e in all && !InChains(collapse, e.pred)
    ensures e in RemoveEach(all, gone)
  {
    assert e !in gone;
    assert e in multiset(all);
  }

  /** An edge on the removal list, stripped from an input edge and not named
      like a synthetic edge, has fewer copies after the removals than in the
      stripped input. */
  lemma LosesCopy(collapse: seq<Chain>, edges: seq<Edge>, all: seq<Edge>, gone: seq<Edge>, x: Edge, i: nat)
    requires Grown(collapse, edges, all) && x in gone
    requires i < |edges| && StripAll(collapse, edges[i]) == x
    requires !CollapsedName(collapse, x.pred)
    ensures multiset(RemoveEach(all, gone))[x] < multiset(StripEach(collapse, edges))[x]
  {
    GrownCount(collapse, edges, all, x);
    assert StripEach(collapse, edges)[i] == x;
    assert x in multiset(gone);
  }

  /** `path` is a considered path of the candidate graph of `coll` on
      `edges`, and its edges spell `coll` exactly. */
  ghost predicate SpellsWhole(edges: seq<Edge>, coll: Chain, path: Path)
  {
    && |coll| > 0
    && path in ConsideredPaths(Triples(Candidates(edges, coll)), Candidates(edges, coll), coll)
    && Preds(PathEdges(Triples(Candidates(edges, coll)), path, path)) == coll
  }

  /** The collapse of the `k`-th chain, when no earlier chain is named like
      one of its predicates, shows in `simplify`'s output: each synthetic
      edge it adds whose name is in no chain is there, and each edge it
      removes has lost a copy (unless a chain's collapsed name happens to
      name it). */
  lemma ChainInSimplify(collapse: seq<Chain>, edges: seq<Edge>, k: nat)
    requires k < |collapse| && NamedApart(collapse, k)
    requires Simplify(collapse, edges).Ok?
    ensures CollapseChain(edges, collapse[k]).Ok?
    ensures forall e :: e in CollapseChain(edges, collapse[k]).value.added && !InChains(collapse, e.pred) ==>
      e in Simplify(collapse, edges).value
    ensures forall x :: x in CollapseChain(edges, collapse[k]).value.removed && !CollapsedName(collapse, x.pred) ==>
      multiset(Simplify(collapse, edges).value)[x] < multiset(StripEach(collapse, edges))[x]
  {
    var p := SimplifyParts(collapse, edges);
    var z := CollapseChain(edges, collapse[k]).value;
    forall e | e in z.added && !InChains(collapse, e.pred)
      ensures e in Simplify(collapse, edges).value
    {
      NotRemoved(collapse, p.0, p.1, e);
    }
    forall x | x in z.removed && !CollapsedName(collapse, x.pred)
      ensures multiset(Simplify(collapse, edges).value)[x] < multiset(StripEach(collapse, edges))[x]
    {
      var e0 :| e0 in edges && e0.pred in collapse[k] && x == Bare(e0);
      assert collapse[k] in collapse;
      var i :| 0 <= i < |edges| && edges[i] == e0;
      LosesCopy(collapse, edges, p.0, p.1, x, i);
    }
  }

  /** A considered path of the `k`-th chain whose edges spell exactly the
      chain is collapsed by `simplify`, provided no earlier chain is named
      like one of the chain's predicates: the synthetic edge from the path's
      first to its last node is in the result (its name is in no chain, so
      nothing removes it), and each edge on the path loses one of its
      copies. */
  lemma WholePathCollapses(collapse: seq<Chain>, edges: seq<Edge>, path: Path, k: nat)
    requires k < |collapse| && |collapse[k]| > 0 && NamedApart(collapse, k)
    requires path in ConsideredPaths(Triples(Candidates(edges, collapse[k])), Candidates(edges, collapse[k]), collapse[k])
    requires Preds(PathEdges(Triples(Candidates(edges, collapse[k])), path, path)) == collapse[k]
    requires !InChains(collapse, Join("-", collapse[k]))
    requires Simplify(collapse, edges).Ok?
    ensures Edge(path[0], Join("-", collapse[k]), path[|collapse[k]|], None) in Simplify(collapse, edges).value
    ensures forall x :: x in PathEdges(Triples(Candidates(edges, collapse[k])), path, path) && !CollapsedName(collapse, x.pred) ==>
      multiset(Simplify(collapse, edges).value)[x] < multiset(StripEach(collapse, edges))[x]
  {
    ChainInSimplify(collapse, edges, k);
    ChainZapsWhole(edges, collapse[k], path);
  }
}
