/** Sequence helpers shared by every view: filtering, searching, first-occurrence
    deduplication (the behaviour of `Array.from(new Set(xs))`) and subsequences. */
module Seqs {

  /** `xs.filter(p)`: the elements of `s` satisfying `p`, in order. */
  function Filter<T>(p: T -> bool, s: seq<T>): (r: seq<T>)
    ensures |r| <= |s|
  {
    if s == [] then []
    else if p(s[0]) then [s[0]] + Filter(p, s[1..])
    else Filter(p, s[1..])
  }

  /** The filter keeps exactly the elements satisfying `p`. */
  lemma {:induction false} FilterMembers<T>(p: T -> bool, s: seq<T>, x: T)
    ensures x in Filter(p, s) <==> x in s && p(x)
  {
    if s != [] {
      FilterMembers(p, s[1..], x);
    }
  }

  lemma {:induction false} FilterConcat<T>(p: T -> bool, a: seq<T>, b: seq<T>)
    ensures Filter(p, a + b) == Filter(p, a) + Filter(p, b)
  {
    if a == [] {
      assert a + b == b;
    } else {
      assert (a + b)[1..] == a[1..] + b;
      FilterConcat(p, a[1..], b);
    }
  }

  /** Filtering with `p` after a weaker filter `q` is filtering with `p` alone. */
  lemma {:induction false} FilterAfterWeaker<T>(p: T -> bool, q: T -> bool, s: seq<T>)
    requires forall x :: p(x) ==> q(x)
    ensures Filter(p, Filter(q, s)) == Filter(p, s)
  {
    if s != [] {
      FilterAfterWeaker(p, q, s[1..]);
    }
  }

  /** Every element satisfies `p`, so filtering changes nothing. */
  lemma {:induction false} FilterAll<T>(p: T -> bool, s: seq<T>)
    requires forall i :: 0 <= i < |s| ==> p(s[i])
    ensures Filter(p, s) == s
  {
    if s != [] {
      FilterAll(p, s[1..]);
    }
  }

  /** No element satisfies `p`, so nothing is kept. */
  lemma {:induction false} FilterNone<T>(p: T -> bool, s: seq<T>)
    requires forall i :: 0 <= i < |s| ==> !p(s[i])
    ensures Filter(p, s) == []
  {
    if s != [] {
      FilterNone(p, s[1..]);
    }
  }

  /** `a` can be obtained from `b` by deleting elements. */
  predicate IsSubsequence<T(==)>(a: seq<T>, b: seq<T>)
    decreases |b|
  {
    a == [] || (b != [] && ((a[0] == b[0] && IsSubsequence(a[1..], b[1..])) || IsSubsequence(a, b[1..])))
  }

  lemma {:induction false} FilterIsSubsequence<T>(p: T -> bool, s: seq<T>)
    ensures IsSubsequence(Filter(p, s), s)
  {
    if s != [] {
      FilterIsSubsequence(p, s[1..]);
    }
  }

  /** Filtering keeps every copy of a passing element and no copy of a
      failing one. */
  lemma {:induction false} FilterMultiset<T>(p: T -> bool, s: seq<T>, x: T)
    ensures multiset(Filter(p, s))[x] == if p(x) then multiset(s)[x] else 0
  {
    if s != [] {
      FilterMultiset(p, s[1..], x);
      assert s == [s[0]] + s[1..];
    }
  }

  /** `xs.indexOf(x)`: the first position of `x`, or -1. */
  function IndexOf<T(==)>(s: seq<T>, x: T): (r: int)
    ensures r == -1 <==> x !in s
    ensures r != -1 ==> 0 <= r < |s| && s[r] == x && x !in s[..r]
  {
    if s == [] then -1
    else if s[0] == x then 0
    else
      var k := IndexOf(s[1..], x);
      assert s[1..][..if k < 0 then 0 else k] == s[1..if k < 0 then 1 else k + 1];
      if k == -1 then -1 else k + 1
  }

  lemma {:induction false} IndexOfPrefix<T>(p: seq<T>, q: seq<T>, x: T)
    requires x in p
    ensures IndexOf(p + q, x) == IndexOf(p, x)
  {
    var k := IndexOf(p, x);
    assert (p + q)[k] == x;
    assert (p + q)[..k] == p[..k];
  }

  lemma {:induction false} IndexOfAppendNew<T>(p: seq<T>, x: T)
    requires x !in p
    ensures IndexOf(p + [x], x) == |p|
  {
    assert (p + [x])[..|p|] == p;
  }

  /** `xs.splice(xs.indexOf(x), 1)`: the first occurrence of `x` removed. */
  function RemoveFirst<T(==)>(s: seq<T>, x: T): (r: seq<T>)
    requires x in s
    ensures |r| == |s| - 1
    ensures multiset(r) == multiset(s) - multiset{x}
  {
    var i := IndexOf(s, x);
    assert s == s[..i] + [x] + s[i + 1..];
    s[..i] + s[i + 1..]
  }

  /** Removing the first occurrence, one element at a time. */
  lemma {:induction false} RemoveFirstCons<T>(s: seq<T>, x: T)
    requires x in s
    ensures RemoveFirst(s, x) == if s[0] == x then s[1..] else [s[0]] + RemoveFirst(s[1..], x)
  {
    if s[0] != x {
      var i := IndexOf(s, x);
      var j := IndexOf(s[1..], x);
      assert i == j + 1;
      assert s[..i] == [s[0]] + s[1..][..j];
      assert s[i + 1..] == s[1..][j + 1..];
    }
  }

  /** No element occurs twice. */
  predicate Distinct<T(==)>(s: seq<T>) {
    forall i, j :: 0 <= i < j < |s| ==> s[i] != s[j]
  }

  /** Reference definition of `Array.from(new Set(s))`: each element of `s` once,
      at the place of its first occurrence. */
  function FirstOccurrences<T(==)>(s: seq<T>): (r: seq<T>)
  {
    if s == [] then []
    else
      var p := s[..|s| - 1];
      FirstOccurrences(p) + (if s[|s| - 1] in p then [] else [s[|s| - 1]])
  }

  lemma {:induction false} FirstOccurrencesMembers<T>(s: seq<T>, x: T)
    ensures x in FirstOccurrences(s) <==> x in s
  {
    if s != [] {
      var p := s[..|s| - 1];
      assert s == p + [s[|s| - 1]];
      FirstOccurrencesMembers(p, x);
    }
  }

  lemma {:induction false} FirstOccurrencesFacts<T>(s: seq<T>)
    ensures Distinct(FirstOccurrences(s))
    ensures forall i :: 0 <= i < |s| ==> s[i] in FirstOccurrences(s)
    ensures forall k :: 0 <= k < |FirstOccurrences(s)| ==> FirstOccurrences(s)[k] in s
    ensures forall i, j :: 0 <= i < j < |FirstOccurrences(s)| ==>
              IndexOf(s, FirstOccurrences(s)[i]) < IndexOf(s, FirstOccurrences(s)[j])
  {
    if s != [] {
      var p := s[..|s| - 1];
      var x := s[|s| - 1];
      assert s == p + [x];
      FirstOccurrencesFacts(p);
      var f := FirstOccurrences(p);
      forall i | 0 <= i < |s| ensures s[i] in FirstOccurrences(s) {
        FirstOccurrencesMembers(s, s[i]);
      }
      forall k | 0 <= k < |f| ensures IndexOf(s, f[k]) == IndexOf(p, f[k]) < |p| {
        IndexOfPrefix(p, [x], f[k]);
      }
      if x !in p {
        IndexOfAppendNew(p, x);
        FirstOccurrencesMembers(p, x);
      }
    }
  }

  lemma {:induction false} FirstOccurrencesSnoc<T>(p: seq<T>, x: T)
    ensures FirstOccurrences(p + [x]) == FirstOccurrences(p) + (if x in p then [] else [x])
  {
    assert (p + [x])[..|p + [x]| - 1] == p;
  }

  /** The left-to-right scan a `Set` performs: keep an element the first time it is seen. */
  function DedupFrom<T(==)>(seen: seq<T>, s: seq<T>): seq<T>
    decreases |s|
  {
    if s == [] then seen
    else DedupFrom(if s[0] in seen then seen else seen + [s[0]], s[1..])
  }

  function Dedup<T(==)>(s: seq<T>): seq<T> {
    DedupFrom([], s)
  }

  lemma {:induction false} DedupFromSpec<T>(p: seq<T>, s: seq<T>)
    ensures DedupFrom(FirstOccurrences(p), s) == FirstOccurrences(p + s)
    decreases |s|
  {
    if s == [] {
      assert p + s == p;
    } else {
      var f := FirstOccurrences(p);
      FirstOccurrencesMembers(p, s[0]);
      FirstOccurrencesSnoc(p, s[0]);
      var f' := if s[0] in f then f else f + [s[0]];
      assert f' == FirstOccurrences(p + [s[0]]);
      assert DedupFrom(f, s) == DedupFrom(f', s[1..]);
      assert p + s == (p + [s[0]]) + s[1..];
      DedupFromSpec(p + [s[0]], s[1..]);
    }
  }

  /** The set-based scan agrees with the reference definition, so it keeps each
      element once, loses none, and lists them in first-occurrence order. */
  lemma {:induction false} DedupIsFirstOccurrences<T>(s: seq<T>)
    ensures Dedup(s) == FirstOccurrences(s)
    ensures Distinct(Dedup(s))
    ensures forall i :: 0 <= i < |s| ==> s[i] in Dedup(s)
    ensures forall k :: 0 <= k < |Dedup(s)| ==> Dedup(s)[k] in s
    ensures forall i, j :: 0 <= i < j < |Dedup(s)| ==> IndexOf(s, Dedup(s)[i]) < IndexOf(s, Dedup(s)[j])
  {
    assert FirstOccurrences<T>([]) == [];
    DedupFromSpec([], s);
    assert [] + s == s;
    FirstOccurrencesFacts(s);
  }

  /** `xs.flatMap(f)` where `f` already returns the sequences. */
  function Flatten<T>(ss: seq<seq<T>>): (r: seq<T>)
    ensures forall i, j :: 0 <= i < |ss| && 0 <= j < |ss[i]| ==> ss[i][j] in r
    ensures forall k :: 0 <= k < |r| ==> exists i :: 0 <= i < |ss| && r[k] in ss[i]
  {
    if ss == [] then []
    else
      var rest := Flatten(ss[1..]);
      assert forall i :: 1 <= i < |ss| ==> ss[i] == ss[1..][i - 1];
      var r := ss[0] + rest;
      assert forall k :: |ss[0]| <= k < |r| ==> r[k] == rest[k - |ss[0]|];
      r
  }

  /** Total length of a sequence of sequences. */
  function SumLengths<T>(ss: seq<seq<T>>): nat {
    if ss == [] then 0 else |ss[0]| + SumLengths(ss[1..])
  }

  lemma {:induction false} FlattenLength<T>(ss: seq<seq<T>>)
    ensures |Flatten(ss)| == SumLengths(ss)
  {
    if ss != [] {
      FlattenLength(ss[1..]);
    }
  }

  /** In a sequence without repetitions, the position of `s[i]` is `i`. */
  lemma {:induction false} IndexOfDistinct<T>(s: seq<T>, i: int)
    requires Distinct(s) && 0 <= i < |s|
    ensures IndexOf(s, s[i]) == i
  {
    var k := IndexOf(s, s[i]);
    assert s[k] == s[i];
    assert forall m :: 0 <= m < k ==> s[..k][m] == s[m];
  }

  /** Filtering keeps the relative order of the elements it keeps. */
  lemma {:induction false} FilterKeepsOrder<T>(p: T -> bool, s: seq<T>, x: T, y: T)
    requires x in Filter(p, s) && y in Filter(p, s)
    ensures IndexOf(Filter(p, s), x) < IndexOf(Filter(p, s), y) <==> IndexOf(s, x) < IndexOf(s, y)
  {
    if s != [] {
      var f := Filter(p, s);
      var f' := Filter(p, s[1..]);
      FilterMembers(p, s, x);
      FilterMembers(p, s, y);
      FilterMembers(p, s[1..], x);
      FilterMembers(p, s[1..], y);
      if p(s[0]) {
        assert f == [s[0]] + f';
        if x != s[0] && y != s[0] {
          assert x in f' && y in f';
          FilterKeepsOrder(p, s[1..], x, y);
          assert f[1..] == f';
        }
      } else {
        assert x != s[0] && y != s[0];
        FilterKeepsOrder(p, s[1..], x, y);
      }
    }
  }

  lemma {:induction false} FilterDistinct<T>(p: T -> bool, s: seq<T>)
    requires Distinct(s)
    ensures Distinct(Filter(p, s))
  {
    if s != [] {
      FilterDistinct(p, s[1..]);
      var f' := Filter(p, s[1..]);
      if p(s[0]) {
        assert s[0] !in s[1..];
        FilterMembers(p, s[1..], s[0]);
      }
    }
  }

  lemma {:induction false} DistinctCountsAtMostOne<T>(s: seq<T>, x: T)
    requires Distinct(s)
    ensures multiset(s)[x] <= 1
  {
    if s != [] {
      assert s == [s[0]] + s[1..];
      DistinctCountsAtMostOne(s[1..], x);
      if x == s[0] {
        assert x !in s[1..];
      }
    }
  }

  /** A permutation of a sequence without repetitions has none either. */
  lemma {:induction false} PermutationDistinct<T>(a: seq<T>, b: seq<T>)
    requires Distinct(a) && multiset(a) == multiset(b)
    ensures Distinct(b)
  {
    forall i, j | 0 <= i < j < |b| ensures b[i] != b[j] {
      if b[i] == b[j] {
        var x := b[i];
        assert b == b[..i] + [x] + b[i + 1..j] + [x] + b[j + 1..];
        assert multiset(b)[x] >= 2;
        DistinctCountsAtMostOne(a, x);
      }
    }
  }

  /** The positions below `n` satisfying `p`, in increasing order: the result of
      a `forEach` over an array that pushes the elements passing a test. */
  function IndicesWhere(p: nat -> bool, n: nat): seq<nat> {
    if n == 0 then [] else IndicesWhere(p, n - 1) + (if p(n - 1) then [n - 1] else [])
  }

  lemma {:induction false} IndicesWhereSpec(p: nat -> bool, n: nat)
    ensures forall x: nat :: x in IndicesWhere(p, n) <==> x < n && p(x)
    ensures forall a, b :: 0 <= a < b < |IndicesWhere(p, n)| ==> IndicesWhere(p, n)[a] < IndicesWhere(p, n)[b]
    ensures Distinct(IndicesWhere(p, n))
  {
    if n > 0 {
      IndicesWhereSpec(p, n - 1);
      var prev := IndicesWhere(p, n - 1);
      forall a | 0 <= a < |prev| ensures prev[a] < n - 1 {
        assert prev[a] in prev;
      }
    }
  }
}
