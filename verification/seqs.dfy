/** List operations the source spells with comprehensions and list methods:
    filtering, `list.index`, `list.remove`, de-duplication and `sorted`. */
module Seqs {
  import opened Wrappers
  import opened Text

  /** `[x for x in s if p(x)]`. */
  function Filter<T(==,!new)>(s: seq<T>, p: T -> bool): (r: seq<T>)
    ensures |r| <= |s|
    ensures forall x :: x in r <==> x in s && p(x)
    ensures forall x :: multiset(r)[x] == if p(x) then multiset(s)[x] else 0
  {
    if |s| == 0 then []
    else
      var rest := Filter(s[1..], p);
      assert s == [s[0]] + s[1..];
      if p(s[0]) then [s[0]] + rest else rest
  }

  lemma {:induction false} FilterAppend<T(!new)>(a: seq<T>, b: seq<T>, p: T -> bool)
    ensures Filter(a + b, p) == Filter(a, p) + Filter(b, p)
    decreases |a|
  {
    if |a| == 0 {
      assert a + b == b;
    } else {
      var c := a + b;
      assert c[0] == a[0] && c[1..] == a[1..] + b;
      FilterAppend(a[1..], b, p);
      if p(a[0]) {
        assert [a[0]] + (Filter(a[1..], p) + Filter(b, p)) == ([a[0]] + Filter(a[1..], p)) + Filter(b, p);
      }
    }
  }

  /** An element the filter rejects can be dropped from the front. */
  lemma FilterDrop<T(!new)>(x: T, s: seq<T>, p: T -> bool)
    requires !p(x)
    ensures Filter([x] + s, p) == Filter(s, p)
  {
    assert ([x] + s)[1..] == s;
  }

  lemma FilterOne<T(!new)>(x: T, p: T -> bool)
    ensures Filter([x], p) == if p(x) then [x] else []
  {
    assert [x][1..] == [];
  }

  /** A filter every element passes keeps the whole list. */
  lemma {:induction false} FilterAll<T(!new)>(s: seq<T>, p: T -> bool)
    requires forall x :: x in s ==> p(x)
    ensures Filter(s, p) == s
    decreases |s|
  {
    if |s| > 0 {
      assert s[0] in s;
      assert forall x :: x in s[1..] ==> x in s;
      FilterAll(s[1..], p);
      assert s == [s[0]] + s[1..];
    }
  }

  /** A filter no element passes keeps nothing. */
  lemma {:induction false} FilterNone<T(!new)>(s: seq<T>, p: T -> bool)
    requires forall x :: x in s ==> !p(x)
    ensures Filter(s, p) == []
    decreases |s|
  {
    if |s| > 0 {
      assert s[0] in s;
      assert forall x :: x in s[1..] ==> x in s;
      FilterNone(s[1..], p);
    }
  }

  /** A filter exactly one position passes keeps just that element. */
  lemma {:induction false} FilterSingle<T(!new)>(s: seq<T>, i: nat, p: T -> bool)
    requires i < |s| && p(s[i])
    requires forall j :: 0 <= j < |s| && j != i ==> !p(s[j])
    ensures Filter(s, p) == [s[i]]
    decreases |s|
  {
    if i == 0 {
      FilterNone(s[1..], p);
    } else {
      FilterSingle(s[1..], i - 1, p);
    }
  }

  /** Filtering by `p` and then by a stricter `q` is filtering by `q`. */
  lemma {:induction false} FilterFilter<T(!new)>(s: seq<T>, p: T -> bool, q: T -> bool)
    requires forall x :: q(x) ==> p(x)
    ensures Filter(Filter(s, p), q) == Filter(s, q)
    decreases |s|
  {
    if |s| > 0 {
      FilterFilter(s[1..], p, q);
    }
  }

  /** `a` is a prefix of `c`: what an appending traversal had before. */
  predicate IsPrefix<T(==)>(a: seq<T>, c: seq<T>)
  {
    |a| <= |c| && c[..|a|] == a
  }

  lemma IsPrefixTrans<T>(a: seq<T>, b: seq<T>, c: seq<T>)
    requires IsPrefix(a, b) && IsPrefix(b, c)
    ensures IsPrefix(a, c)
  {
    assert c[..|b|][..|a|] == c[..|a|];
  }

  predicate Distinct<T(==)>(s: seq<T>)
  {
    forall i, j :: 0 <= i < j < |s| ==> s[i] != s[j]
  }

  /** The elements of `s`, each once, in order of first appearance. */
  function Dedup<T(==,!new)>(s: seq<T>): (r: seq<T>)
    ensures Distinct(r)
    ensures forall x :: x in r <==> x in s
    ensures |r| <= |s|
  {
    if |s| == 0 then []
    else
      var r := Dedup(s[..|s| - 1]);
      assert s == s[..|s| - 1] + [s[|s| - 1]];
      if s[|s| - 1] in r then r else r + [s[|s| - 1]]
  }

  /** De-duplicating a list without repeats keeps it as it is. */
  lemma {:induction false} DedupDistinct<T(!new)>(s: seq<T>)
    requires Distinct(s)
    ensures Dedup(s) == s
    decreases |s|
  {
    if |s| > 0 {
      var init := s[..|s| - 1];
      assert Distinct(init) by {
        forall i, j | 0 <= i < j < |init|
          ensures init[i] != init[j]
        {
          assert init[i] == s[i] && init[j] == s[j];
        }
      }
      DedupDistinct(init);
      assert s[|s| - 1] !in init by {
        forall i | 0 <= i < |init|
          ensures init[i] != s[|s| - 1]
        {
          assert init[i] == s[i];
        }
      }
      assert s == init + [s[|s| - 1]];
    }
  }

  /** An element occurs at most once in a list without repeats. */
  lemma {:induction false} DistinctCount<T(!new)>(s: seq<T>, x: T)
    requires Distinct(s)
    ensures multiset(s)[x] <= 1
    decreases |s|
  {
    if |s| > 0 {
      assert s == [s[0]] + s[1..];
      DistinctCount(s[1..], x);
      if s[0] == x {
        assert x !in s[1..];
      }
    }
  }

  /** A list without repeats drawn from `d` is no longer than `d`. */
  lemma {:induction false} DistinctWithin<T(!new)>(w: seq<T>, d: seq<T>)
    requires Distinct(w) && forall x :: x in w ==> x in d
    ensures |w| <= |d|
    decreases |w|
  {
    if |w| > 0 {
      var d' := RemoveFirst(d, w[0]);
      forall x | x in w[1..]
        ensures x in d'
      {
        var i :| 0 <= i < |w[1..]| && w[1..][i] == x;
        assert w[i + 1] == x && x != w[0] && w[i + 1] in w;
        assert x in multiset(d);
        assert x in multiset(d');
      }
      assert Distinct(w[1..]) by {
        forall i, j | 0 <= i < j < |w[1..]|
          ensures w[1..][i] != w[1..][j]
        {
          assert w[1..][i] == w[i + 1] && w[1..][j] == w[j + 1];
        }
      }
      DistinctWithin(w[1..], d');
    }
  }

  /** A list longer than `d` drawn from `d` repeats an element. */
  lemma Repeats<T(!new)>(w: seq<T>, d: seq<T>) returns (i: nat, j: nat)
    requires |w| > |d| && forall x :: x in w ==> x in d
    ensures i < j < |w| && w[i] == w[j]
  {
    if Distinct(w) {
      DistinctWithin(w, d);
    }
    i, j :| 0 <= i < j < |w| && w[i] == w[j];
  }

  lemma TwoOccurrences<T>(a: seq<T>, i: nat, j: nat)
    requires i < j < |a| && a[i] == a[j]
    ensures multiset(a)[a[i]] >= 2
  {
    assert a == a[..j] + a[j..];
    assert a[i] in a[..j];
  }

  /** A rearrangement of a list without repeats has no repeats. */
  lemma DistinctPermutation<T(!new)>(a: seq<T>, b: seq<T>)
    requires Distinct(b) && multiset(a) == multiset(b)
    ensures Distinct(a)
  {
    forall i, j | 0 <= i < j < |a|
      ensures a[i] != a[j]
    {
      if a[i] == a[j] {
        TwoOccurrences(a, i, j);
        DistinctCount(b, a[i]);
      }
    }
  }

  /** The last position whose element satisfies `p`. */
  function LastWhere<T>(s: seq<T>, p: T -> bool): (r: Option<nat>)
    ensures r.None? <==> forall k :: 0 <= k < |s| ==> !p(s[k])
    ensures r.Some? ==> r.value < |s| && p(s[r.value])
    ensures r.Some? ==> forall k :: r.value < k < |s| ==> !p(s[k])
  {
    if |s| == 0 then None
    else if p(s[|s| - 1]) then Some(|s| - 1)
    else LastWhere(s[..|s| - 1], p)
  }

  /** The first position whose element satisfies `p`: what a loop that
      stops at its first match finds. */
  function FirstWhere<T>(s: seq<T>, p: T -> bool): (r: Option<nat>)
    ensures r.None? <==> forall k :: 0 <= k < |s| ==> !p(s[k])
    ensures r.Some? ==> r.value < |s| && p(s[r.value])
    ensures r.Some? ==> forall k :: 0 <= k < r.value ==> !p(s[k])
  {
    if |s| == 0 then None
    else if p(s[0]) then Some(0)
    else
      assert forall k :: 1 <= k < |s| ==> s[1..][k - 1] == s[k];
      match FirstWhere(s[1..], p)
      case None => None
      case Some(k) => Some(k + 1)
  }

  function FlatMapResult<T, U(==,!new), E(==)>(s: seq<T>, f: T -> Result<seq<U>, E>): (r: Result<seq<U>, E>)
    ensures r.Ok? <==> forall k :: 0 <= k < |s| ==> f(s[k]).Ok?
    ensures r.Ok? ==> forall y :: y in r.value <==> exists k :: 0 <= k < |s| && f(s[k]).Ok? && y in f(s[k]).value
    ensures r.Err? ==> exists k :: 0 <= k < |s| && f(s[k]) == Err(r.error) && forall j :: 0 <= j < k ==> f(s[j]).Ok?
    decreases |s|
  {
    if |s| == 0 then Ok([])
    else
      var here := f(s[0]);
      if here.Err? then
        assert f(s[0]) == Err(here.error);
        Err(here.error)
      else
        var rest := FlatMapResult(s[1..], f);
        assert forall k :: 1 <= k < |s| ==> s[1..][k - 1] == s[k];
        if rest.Err? then
          var k :| 0 <= k < |s[1..]| && f(s[1..][k]) == Err(rest.error) && forall j :: 0 <= j < k ==> f(s[1..][j]).Ok?;
          assert f(s[k + 1]) == Err(rest.error);
          Err(rest.error)
        else
          Ok(here.value + rest.value)
  }

  /** The last match in `[x] + rest` is the last one in `rest`, or `x`. */
  lemma LastWhereCons<T>(s: seq<T>, p: T -> bool)
    requires |s| > 0
    ensures LastWhere(s, p) == match LastWhere(s[1..], p)
      case Some(k) => Some(k + 1)
      case None => if p(s[0]) then Some(0) else None
  {
    assert forall k :: 1 <= k < |s| ==> s[1..][k - 1] == s[k];
    match LastWhere(s[1..], p)
    case Some(k) =>
      LastWhereIs(s, p, k + 1);
    case None =>
      if p(s[0]) {
        LastWhereIs(s, p, 0);
      }
  }

  /** A match with no match after it is the last one. */
  lemma LastWhereIs<T>(s: seq<T>, p: T -> bool, k: nat)
    requires k < |s| && p(s[k]) && forall j :: k < j < |s| ==> !p(s[j])
    ensures LastWhere(s, p) == Some(k)
  {
  }

  /** Lists whose elements pass and fail `p` alike have the same last match. */
  lemma LastWhereAlike<T, U>(a: seq<T>, p: T -> bool, b: seq<U>, q: U -> bool)
    requires |a| == |b|
    requires forall k :: 0 <= k < |a| ==> p(a[k]) == q(b[k])
    ensures LastWhere(a, p) == LastWhere(b, q)
  {
  }

  /** Python's `s[i:j]` for `0 <= i <= j`: both bounds are clamped to the length. */
  function Slice<T>(s: seq<T>, i: nat, j: nat): (r: seq<T>)
    requires i <= j
    ensures i < |s| ==> r == s[i..if j <= |s| then j else |s|]
    ensures i >= |s| ==> r == []
  {
    if i >= |s| then [] else s[i..if j <= |s| then j else |s|]
  }

  /** `s.index(x)`: the first position of `x`. */
  function IndexOf<T(==)>(s: seq<T>, x: T): (r: nat)
    requires x in s
    ensures r < |s| && s[r] == x
    ensures forall k :: 0 <= k < r ==> s[k] != x
  {
    if s[0] == x then 0 else 1 + IndexOf(s[1..], x)
  }

  /** `s.remove(x)`: drops the first occurrence of `x`. */
  function RemoveFirst<T(==)>(s: seq<T>, x: T): (r: seq<T>)
    requires x in s
    ensures multiset(r) == multiset(s) - multiset{x}
    ensures |r| == |s| - 1
  {
    var i := IndexOf(s, x);
    assert s == s[..i] + [x] + s[i + 1..];
    s[..i] + s[i + 1..]
  }

  lemma FilterRemoveFirst<T(!new)>(s: seq<T>, x: T, p: T -> bool)
    requires x in s && !p(x)
    ensures Filter(RemoveFirst(s, x), p) == Filter(s, p)
  {
    var i := IndexOf(s, x);
    assert s == s[..i] + ([x] + s[i + 1..]);
    FilterAppend(s[..i], [x] + s[i + 1..], p);
    FilterAppend([x], s[i + 1..], p);
    FilterAppend(s[..i], s[i + 1..], p);
  }

  /** `for r in rs: if r in s: s.remove(r)`: each entry of `rs` removes one
      occurrence that is still present, so the result is the multiset
      difference, and entries no longer present are skipped. */
  function RemoveEach<T(==)>(s: seq<T>, rs: seq<T>): (r: seq<T>)
    ensures multiset(r) == multiset(s) - multiset(rs)
    decreases |rs|
  {
    if |rs| == 0 then s
    else
      RemoveStep(s, rs);
      RemoveEach(if rs[0] in s then RemoveFirst(s, rs[0]) else s, rs[1..])
  }

  lemma RemoveStep<T>(s: seq<T>, rs: seq<T>)
    requires |rs| > 0
    ensures multiset(s) - multiset(rs) == multiset(if rs[0] in s then RemoveFirst(s, rs[0]) else s) - multiset(rs[1..])
  {
    var s' := if rs[0] in s then RemoveFirst(s, rs[0]) else s;
    assert rs == [rs[0]] + rs[1..];
    forall y
      ensures (multiset(s) - multiset(rs))[y] == (multiset(s') - multiset(rs[1..]))[y]
    {
    }
    assert multiset(s) - multiset(rs) == multiset(s') - multiset(rs[1..]);
  }

  /** Removing only elements that fail `p` leaves the `p`-elements, in order. */
  lemma {:induction false} FilterRemoveEach<T(!new)>(s: seq<T>, rs: seq<T>, p: T -> bool)
    requires forall x :: x in rs ==> !p(x)
    ensures Filter(RemoveEach(s, rs), p) == Filter(s, p)
    decreases |rs|
  {
    if |rs| > 0 {
      var s' := if rs[0] in s then RemoveFirst(s, rs[0]) else s;
      if rs[0] in s {
        FilterRemoveFirst(s, rs[0], p);
      }
      FilterRemoveEach(s', rs[1..], p);
    }
  }

  ghost predicate SortedBy<T>(s: seq<T>, key: T -> seq<string>)
  {
    forall i, j :: 0 <= i < j < |s| ==> KeyLe(key(s[i]), key(s[j]))
  }

  function Insert<T(==)>(x: T, s: seq<T>, key: T -> seq<string>): (r: seq<T>)
    requires SortedBy(s, key)
    ensures SortedBy(r, key)
    ensures multiset(r) == multiset(s) + multiset{x}
  {
    if |s| == 0 then [x]
    else if KeyLe(key(x), key(s[0])) then
      assert forall j :: 0 <= j < |s| ==> KeyLe(key(x), key(s[j])) by {
        forall j | 0 <= j < |s|
          ensures KeyLe(key(x), key(s[j]))
        {
          if j > 0 {
            KeyLeTrans(key(x), key(s[0]), key(s[j]));
          }
        }
      }
      [x] + s
    else
      KeyLeTotal(key(x), key(s[0]));
      var rest := Insert(x, s[1..], key);
      assert s == [s[0]] + s[1..];
      assert forall j :: 0 <= j < |rest| ==> KeyLe(key(s[0]), key(rest[j])) by {
        forall j | 0 <= j < |rest|
          ensures KeyLe(key(s[0]), key(rest[j]))
        {
          assert rest[j] in multiset(rest);
          if rest[j] != x {
            assert rest[j] in s[1..];
          }
        }
      }
      [s[0]] + rest
  }

  /** `sorted(s, key=key)`, where keys compare as Python compares tuples of strings. */
  function SortBy<T(==)>(s: seq<T>, key: T -> seq<string>): (r: seq<T>)
    ensures SortedBy(r, key)
    ensures multiset(r) == multiset(s)
  {
    if |s| == 0 then []
    else
      assert s == [s[0]] + s[1..];
      Insert(s[0], SortBy(s[1..], key), key)
  }

  lemma NonEmptyHasHead<T>(s: seq<T>)
    ensures |s| > 0 ==> s[0] in s
  {
  }

  lemma NonEmptyIff<T>(s: seq<T>)
    ensures |s| > 0 <==> exists x :: x in s
  {
    NonEmptyHasHead(s);
  }

  /** Two orderings of the same distinct elements that are both sorted by a
      key telling the elements apart are the same list: so `sorted` fixes the
      order however the set before it was iterated. */
  lemma {:induction false} SortedUnique<T(!new)>(a: seq<T>, b: seq<T>, key: T -> seq<string>)
    requires Distinct(a) && Distinct(b)
    requires forall x :: x in a <==> x in b
    requires SortedBy(a, key) && SortedBy(b, key)
    requires forall x, y :: x in a && y in a && key(x) == key(y) ==> x == y
    ensures a == b
    decreases |a|
  {
    if |a| == 0 {
      NonEmptyHasHead(b);
    } else {
      assert a[0] in b;
      assert |b| > 0;
      assert b[0] in a;
      var i := IndexOf(a, b[0]);
      var j := IndexOf(b, a[0]);
      if i > 0 {
        assert j > 0;
        assert KeyLe(key(a[0]), key(b[0]));
        assert KeyLe(key(b[0]), key(a[0]));
        KeyLeAntisym(key(a[0]), key(b[0]));
        assert false;
      }
      assert a[0] == b[0];
      forall x | x in a[1..]
        ensures x in b[1..]
      {
        var k :| 0 < k < |a| && a[k] == x;
        assert x in b;
        assert x != b[0];
      }
      forall x | x in b[1..]
        ensures x in a[1..]
      {
        var k :| 0 < k < |b| && b[k] == x;
        assert x in a;
        assert x != a[0];
      }
      SortedUnique(a[1..], b[1..], key);
      assert a == [a[0]] + a[1..] && b == [b[0]] + b[1..];
    }
  }
}
