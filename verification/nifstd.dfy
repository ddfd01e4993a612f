/** The `nifstd` edge primitives: field tests, the edge filter `ematch` that
    every traversal is built from, and the contiguous-sublist search
    `listIn`. The accessors `sub`/`pred`/`obj` without a match value are the
    fields of `Blobs.Edge`. */
module Nifstd {
  import opened Wrappers
  import opened Seqs
  import opened Blobs

  /** `nifstd.sub(edge, match)` with a match value. */
  predicate SubIs(e: Edge, m: Id)
  {
    e.sub == m
  }

  /** `nifstd.pred(edge, match)` with a match value. */
  predicate PredIs(e: Edge, m: string)
  {
    e.pred == m
  }

  /** `nifstd.obj(edge, match)` with a match value. */
  predicate ObjIs(e: Edge, m: Id)
  {
    e.obj == m
  }

  /** `nifstd.ematch(blob, select, match)`: the blob's edges, in order, that
      `select` accepts for `match`. */
  function Ematch(b: Blob, select: (Edge, Id) -> bool, m: Id): (r: seq<Edge>)
    ensures forall e :: e in r <==> e in b.edges && select(e, m)
    ensures forall e :: multiset(r)[e] == if select(e, m) then multiset(b.edges)[e] else 0
  {
    Filter(b.edges, e => select(e, m))
  }

  /** `m` sits in `c` starting at position `k`. */
  predicate OccursAt(c: seq<string>, m: seq<string>, k: nat)
  {
    k + |m| <= |c| && c[k..k + |m|] == m
  }

  lemma OccursAtHead(c: seq<string>, m: seq<string>, k: nat)
    requires |m| > 0 && OccursAt(c, m, k)
    ensures k < |c| && c[k] == m[0]
  {
    assert c[k..k + |m|][0] == c[k];
  }

  /** An occurrence at the first `m[0]` is an occurrence of `m[1..]` at the
      start of what follows it. */
  lemma OccursAtSplit(c: seq<string>, m: seq<string>, s: nat)
    requires |m| > 1 && s < |c| && c[s] == m[0]
    ensures OccursAt(c, m, s) <==> OccursAt(c[s + 1..], m[1..], 0)
  {
    var rest := c[s + 1..];
    if OccursAt(rest, m[1..], 0) {
      assert c[s..s + |m|] == [c[s]] + rest[0..|m| - 1];
      assert m == [m[0]] + m[1..];
    }
    if OccursAt(c, m, s) {
      assert rest[0..|m| - 1] == c[s..s + |m|][1..];
    }
  }

  /** Occurrences past position `s` are occurrences in `c[s + 1..]`. */
  lemma OccursAtShift(c: seq<string>, m: seq<string>, s: nat, k: nat)
    requires s < k && s < |c|
    ensures OccursAt(c, m, k) <==> OccursAt(c[s + 1..], m, k - s - 1)
  {
    if k + |m| <= |c| {
      assert c[s + 1..][k - s - 1..k - s - 1 + |m|] == c[k..k + |m|];
    }
  }

  /** `nifstd.listIn(container, maybe_contained, strict=strict)`: the leftmost
      position where `m` occurs contiguously in `c`. A strict search first
      demands that `c` be strictly longer than `m`, a non-strict one that it
      be no shorter. */
  function ListIn(c: seq<string>, m: seq<string>, strict: bool): (r: Option<nat>)
    requires |m| > 0
    ensures r.Some? ==> (if strict then |c| > |m| else |c| >= |m|)
    ensures r.Some? ==> OccursAt(c, m, r.value)
    ensures r.Some? ==> forall k :: 0 <= k < r.value ==> !OccursAt(c, m, k)
    ensures r.None? && (strict ==> |c| > |m|) ==> forall k :: 0 <= k ==> !OccursAt(c, m, k)
    decreases |c|, 1
  {
    if |c| > |m| || (!strict && |c| == |m|) then
      if m[0] in c then
        var s := IndexOf(c, m[0]);
        NotBeforeHead(c, m, s);
        ListInFrom(c, m, s)
      else
        NotAnywhere(c, m);
        None
    else
      None
  }

  /** The search once the first `m[0]` is found at `s`: `m` there, or else
      the leftmost occurrence after it. */
  function ListInFrom(c: seq<string>, m: seq<string>, s: nat): (r: Option<nat>)
    requires |m| > 0 && s < |c| && c[s] == m[0]
    requires forall k :: 0 <= k < s ==> !OccursAt(c, m, k)
    ensures r.Some? ==> OccursAt(c, m, r.value)
    ensures r.Some? ==> forall k :: 0 <= k < r.value ==> !OccursAt(c, m, k)
    ensures r.None? ==> forall k :: 0 <= k ==> !OccursAt(c, m, k)
    decreases |c|, 0
  {
    if |m| == 1 then
      assert c[s..s + 1] == [m[0]] == m;
      Some(s)
    else
      var rest := c[s + 1..];
      var tail := ListIn(rest, m[1..], false);
      OccursAtSplit(c, m, s);
      if tail.None? || tail.value > 0 then
        var r := ListIn(rest, m, false);
        ShiftAll(c, m, s);
        match r
        case None => None
        case Some(j) => Some(s + 1 + j)
      else
        Some(s)
  }

  /** Nothing occurs before the first `m[0]`. */
  lemma NotBeforeHead(c: seq<string>, m: seq<string>, s: nat)
    requires |m| > 0 && s <= |c| && forall k :: 0 <= k < s ==> c[k] != m[0]
    ensures forall k :: 0 <= k < s ==> !OccursAt(c, m, k)
  {
    forall k | 0 <= k < s && OccursAt(c, m, k)
      ensures false
    {
      OccursAtHead(c, m, k);
    }
  }

  /** Without `m[0]` in `c`, `m` occurs nowhere. */
  lemma NotAnywhere(c: seq<string>, m: seq<string>)
    requires |m| > 0 && m[0] !in c
    ensures forall k :: 0 <= k ==> !OccursAt(c, m, k)
  {
    forall k | 0 <= k && OccursAt(c, m, k)
      ensures false
    {
      OccursAtHead(c, m, k);
    }
  }

  /** Every occurrence past `s` is one in `c[s + 1..]`, shifted. */
  lemma ShiftAll(c: seq<string>, m: seq<string>, s: nat)
    requires s < |c|
    ensures forall k :: s < k ==> (OccursAt(c, m, k) <==> OccursAt(c[s + 1..], m, k - s - 1))
  {
    forall k | s < k
      ensures OccursAt(c, m, k) <==> OccursAt(c[s + 1..], m, k - s - 1)
    {
      OccursAtShift(c, m, s, k);
    }
  }
}
