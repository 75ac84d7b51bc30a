// Option and Result values, and sequence facts, shared by every module of the model.
module Wrappers {
  datatype Option<T> = None | Some(value: T)

  /** A computation that either yields a value or fails with the message the
      source prints (or with the exception it would throw). */
  datatype Result<T> = Ok(value: T) | Err(error: string)

  /** Regrouping a concatenation, stated over plain parameters so that a
      caller's proof needs nothing but this equation. */
  lemma Reassociate<T>(a: seq<T>, b: seq<T>, c: seq<T>)
    ensures a + b + c == a + (b + c)
  {
  }

  /** The prefix one longer than `s[..i]`, taken apart. */
  lemma PrefixSnoc<T>(s: seq<T>, i: nat)
    requires i < |s|
    ensures var t := s[..i + 1];
      |t| == i + 1 && t[..i] == s[..i] && t[i] == s[i]
  {
  }

  /** The prefix one longer than `s[..i]`, as a concatenation. */
  lemma PrefixPush<T>(s: seq<T>, i: nat)
    requires i < |s|
    ensures s[..i + 1] == s[..i] + [s[i]]
  {
  }

  lemma PrefixSuffix<T>(s: seq<T>, i: nat)
    requires i <= |s|
    ensures s[..i] + s[i..] == s
  {
  }

  /** Slices of `s` against slices of its tail. */
  lemma SliceCons<T>(s: seq<T>, k: nat)
    requires 1 <= k <= |s|
    ensures s[..k] == [s[0]] + s[1..][..k - 1]
  {
  }

  /** Slices of `s` against slices of all but its last element. */
  lemma SliceSnoc<T>(s: seq<T>, k: nat)
    requires k < |s|
    ensures s[..|s| - 1][..k] == s[..k] && s[k..] == s[..|s| - 1][k..] + [s[|s| - 1]]
  {
  }

  lemma SuffixCons<T>(s: seq<T>, i: nat)
    requires i < |s|
    ensures s[i..] == [s[i]] + s[i + 1..]
  {
  }

  lemma SuffixSplit<T>(s: seq<T>, i: nat, n: nat)
    requires i + n <= |s|
    ensures s[i..] == s[i..i + n] + s[i + n..]
  {
  }

  /** A slice of a slice is a slice of the whole. */
  lemma SliceOfSlice<T>(s: seq<T>, i: nat, j: nat, k: nat, l: nat)
    requires i <= j <= |s| && k <= l <= j - i
    ensures s[i..j][k..l] == s[i + k..i + l]
  {
    var t := s[i..j];
    forall m | 0 <= m < l - k ensures t[k..l][m] == s[i + k..i + l][m] {
      assert t[k..l][m] == t[k + m];
      assert t[k + m] == s[i + k + m];
    }
  }

  /** The middle of three concatenated sequences, sliced out again. */
  lemma MiddleOf<T>(a: seq<T>, b: seq<T>, c: seq<T>)
    ensures (a + b + c)[|a|..|a| + |b|] == b
  {
    forall m | 0 <= m < |b| ensures (a + b + c)[|a|..|a| + |b|][m] == b[m] {
      assert (a + b + c)[|a| + m] == b[m];
    }
  }

  /** A slice of `a + b` that lies within `a`. */
  lemma ConcatSliceLeft<T>(a: seq<T>, b: seq<T>, i: nat, j: nat)
    requires i <= j <= |a|
    ensures (a + b)[i..j] == a[i..j]
  {
    forall m | 0 <= m < j - i ensures (a + b)[i..j][m] == a[i..j][m] {
      assert (a + b)[i + m] == a[i + m];
    }
  }

  /** A slice of `a + b` that lies within `b`. */
  lemma ConcatSliceRight<T>(a: seq<T>, b: seq<T>, i: nat, j: nat)
    requires |a| <= i <= j <= |a| + |b|
    ensures (a + b)[i..j] == b[i - |a|..j - |a|]
  {
    forall m | 0 <= m < j - i ensures (a + b)[i..j][m] == b[i - |a|..j - |a|][m] {
      assert (a + b)[i + m] == b[i - |a| + m];
    }
  }

  lemma WholePrefix<T>(s: seq<T>)
    ensures s[..|s|] == s
  {
  }

  /** The results of `f` on the elements of `xs`, concatenated in order. */
  function FlatMap<T, U>(xs: seq<T>, f: T -> seq<U>): seq<U> {
    if xs == [] then [] else FlatMap(xs[..|xs| - 1], f) + f(xs[|xs| - 1])
  }

  lemma FlatMapPush<T, U>(xs: seq<T>, x: T, f: T -> seq<U>)
    ensures FlatMap(xs + [x], f) == FlatMap(xs, f) + f(x)
  {
    assert (xs + [x])[..|xs|] == xs;
  }

  lemma FlatMapOne<T, U>(x: T, f: T -> seq<U>)
    ensures FlatMap([x], f) == f(x)
  {
    assert [x][..0] == [];
  }

  lemma {:induction false} FlatMapConcat<T, U>(a: seq<T>, b: seq<T>, f: T -> seq<U>)
    ensures FlatMap(a + b, f) == FlatMap(a, f) + FlatMap(b, f)
    decreases |b|
  {
    if b == [] {
      AppendEmpty(a);
      AppendEmpty(FlatMap(a, f));
    } else {
      var init := b[..|b| - 1];
      var x := b[|b| - 1];
      FlatMapConcat(a, init, f);
      SnocSplit(a, b);
      Reassociate(FlatMap(a, f), FlatMap(init, f), f(x));
    }
  }

  lemma AppendAssoc<T>(a: seq<T>, b: seq<T>, c: seq<T>)
    ensures a + b + c == a + (b + c)
  {
  }

  lemma AppendEmpty<T>(a: seq<T>)
    ensures a + [] == a && [] + a == a
  {
  }

  /** The last element of a concatenation with a non-empty right part. */
  lemma SnocSplit<T>(a: seq<T>, b: seq<T>)
    requires b != []
    ensures a + b != [] && (a + b)[..|a + b| - 1] == a + b[..|b| - 1] && (a + b)[|a + b| - 1] == b[|b| - 1]
  {
  }

  /** The first element of a concatenation with a non-empty left part. */
  lemma ConsSplit<T>(a: seq<T>, b: seq<T>)
    requires a != []
    ensures a + b != [] && (a + b)[0] == a[0] && (a + b)[1..] == a[1..] + b && [a[0]] + (a[1..] + b) == a + b
  {
  }

  /** A non-empty sequence is its prefix and its last element. */
  lemma SplitLast<T>(s: seq<T>)
    requires s != []
    ensures s == s[..|s| - 1] + [s[|s| - 1]]
  {
  }

  /** The longest prefix of `xs` whose elements all satisfy `p`. */
  function TakeWhile<T>(xs: seq<T>, p: T -> bool): (r: seq<T>)
    ensures r <= xs
    ensures forall k :: 0 <= k < |r| ==> p(r[k])
    ensures r == xs || !p(xs[|r|])
  {
    if xs == [] || !p(xs[0]) then [] else [xs[0]] + TakeWhile(xs[1..], p)
  }

  lemma {:induction false} TakeWhileConcat<T>(a: seq<T>, b: seq<T>, p: T -> bool)
    requires forall k :: 0 <= k < |a| ==> p(a[k])
    ensures TakeWhile(a + b, p) == a + TakeWhile(b, p)
    decreases |a|
  {
    if a == [] {
      AppendEmpty(b);
    } else {
      TakeWhileConcat(a[1..], b, p);
      ConsSplit(a, b);
      assert p(a[0]);
    }
  }

  lemma {:induction false} TakeWhileStops<T>(b: seq<T>, c: seq<T>, p: T -> bool)
    requires TakeWhile(b, p) != b
    ensures TakeWhile(b + c, p) == TakeWhile(b, p)
    decreases |b|
  {
    ConsSplit(b, c);
    if p(b[0]) {
      TakeWhileStops(b[1..], c, p);
    }
  }

  /** `step` applied to each element of `xs` in turn, from `s`. */
  function Fold<S, T>(s: S, xs: seq<T>, step: (S, T) -> S): S {
    if xs == [] then s else step(Fold(s, xs[..|xs| - 1], step), xs[|xs| - 1])
  }

  lemma FoldPush<S, T>(s: S, xs: seq<T>, x: T, step: (S, T) -> S)
    ensures Fold(s, xs + [x], step) == step(Fold(s, xs, step), x)
  {
    assert (xs + [x])[..|xs|] == xs;
  }

  lemma {:induction false} FoldConcat<S, T>(s: S, a: seq<T>, b: seq<T>, step: (S, T) -> S)
    ensures Fold(s, a + b, step) == Fold(Fold(s, a, step), b, step)
    decreases |b|
  {
    if b == [] {
      AppendEmpty(a);
    } else {
      FoldConcat(s, a, b[..|b| - 1], step);
      SnocSplit(a, b);
    }
  }

  /** `xs.filter(p)`: the elements that satisfy `p`, in their order. */
  function Filter<T>(xs: seq<T>, p: T -> bool): (r: seq<T>)
    ensures |r| <= |xs|
  {
    if xs == [] then [] else Filter(xs[..|xs| - 1], p) + (if p(xs[|xs| - 1]) then [xs[|xs| - 1]] else [])
  }

  lemma FilterPush<T>(xs: seq<T>, x: T, p: T -> bool)
    ensures Filter(xs + [x], p) == Filter(xs, p) + if p(x) then [x] else []
  {
    assert (xs + [x])[..|xs|] == xs;
  }

  /** The filter keeps exactly the elements that satisfy `p`. */
  lemma {:induction false} FilterMembers<T>(xs: seq<T>, p: T -> bool)
    ensures forall x :: x in Filter(xs, p) <==> x in xs && p(x)
    decreases |xs|
  {
    if xs != [] {
      var init, x := xs[..|xs| - 1], xs[|xs| - 1];
      FilterMembers(init, p);
      SplitLast(xs);
      FilterPush(init, x, p);
    }
  }

  lemma {:induction false} FilterConcat<T>(a: seq<T>, b: seq<T>, p: T -> bool)
    ensures Filter(a + b, p) == Filter(a, p) + Filter(b, p)
    decreases |b|
  {
    if b == [] {
      AppendEmpty(a);
      AppendEmpty(Filter(a, p));
    } else {
      var init, x := b[..|b| - 1], b[|b| - 1];
      FilterConcat(a, init, p);
      SnocSplit(a, b);
      FilterPush(a + init, x, p);
      FilterPush(init, x, p);
      Reassociate(Filter(a, p), Filter(init, p), if p(x) then [x] else []);
    }
  }

  /** A filter that every element passes is the identity. */
  lemma {:induction false} FilterAll<T>(xs: seq<T>, p: T -> bool)
    requires forall k :: 0 <= k < |xs| ==> p(xs[k])
    ensures Filter(xs, p) == xs
    decreases |xs|
  {
    if xs != [] {
      FilterAll(xs[..|xs| - 1], p);
      SplitLast(xs);
    }
  }

  /** A filter that no element passes is empty. */
  lemma {:induction false} FilterNone<T>(xs: seq<T>, p: T -> bool)
    requires forall k :: 0 <= k < |xs| ==> !p(xs[k])
    ensures Filter(xs, p) == []
    decreases |xs|
  {
    if xs != [] {
      FilterNone(xs[..|xs| - 1], p);
    }
  }

  /** What the filter keeps comes from the list and passes the test. */
  lemma FilterMember<T>(xs: seq<T>, p: T -> bool, y: T)
    requires y in Filter(xs, p)
    ensures y in xs && p(y)
  {
    FilterMembers(xs, p);
  }

  /** The filter keeps two or more elements exactly when two positions
      pass the test. */
  lemma FilterPairs<T>(xs: seq<T>, p: T -> bool)
    ensures |Filter(xs, p)| > 1 <==> exists i, j :: 0 <= i < j < |xs| && p(xs[i]) && p(xs[j])
  {
    if |Filter(xs, p)| > 1 {
      var i, j := PairOfFilter(xs, p);
    }
    if exists i, j :: 0 <= i < j < |xs| && p(xs[i]) && p(xs[j]) {
      var i, j :| 0 <= i < j < |xs| && p(xs[i]) && p(xs[j]);
      FilterOfPair(xs, p, i, j);
    }
  }

  /** A filter that keeps two elements kept them from two positions. */
  lemma {:induction false} PairOfFilter<T>(xs: seq<T>, p: T -> bool) returns (i: nat, j: nat)
    requires |Filter(xs, p)| > 1
    ensures i < j < |xs| && p(xs[i]) && p(xs[j])
    decreases |xs|
  {
    var init, x := xs[..|xs| - 1], xs[|xs| - 1];
    if |Filter(init, p)| > 1 {
      i, j := PairOfFilter(init, p);
      assert xs[i] == init[i] && xs[j] == init[j];
    } else {
      var y := Filter(init, p)[0];
      assert y in Filter(init, p);
      FilterMember(init, p, y);
      var k :| 0 <= k < |init| && init[k] == y;
      i, j := k, |xs| - 1;
      assert xs[i] == y;
    }
  }

  /** Two positions that pass the test leave at least two elements. */
  lemma {:induction false} FilterOfPair<T>(xs: seq<T>, p: T -> bool, i: nat, j: nat)
    requires i < j < |xs| && p(xs[i]) && p(xs[j])
    ensures |Filter(xs, p)| > 1
    decreases |xs|
  {
    var init := xs[..|xs| - 1];
    if j < |init| {
      assert init[i] == xs[i] && init[j] == xs[j];
      FilterOfPair(init, p, i, j);
    } else {
      FilterMembers(init, p);
      assert init[i] == xs[i] && init[i] in init;
      assert init[i] in Filter(init, p);
    }
  }

  /** `xs.filter(y => y !== x)`: every copy of `x` removed. */
  function Without<T(==)>(xs: seq<T>, x: T): (r: seq<T>)
    ensures |r| <= |xs|
  {
    if xs == [] then [] else Without(xs[..|xs| - 1], x) + (if xs[|xs| - 1] == x then [] else [xs[|xs| - 1]])
  }

  lemma WithoutPush<T>(xs: seq<T>, y: T, x: T)
    ensures Without(xs + [y], x) == Without(xs, x) + if y == x then [] else [y]
  {
    assert (xs + [y])[..|xs|] == xs;
  }

  /** Removing `x` keeps exactly the elements other than `x`. */
  lemma {:induction false} WithoutMembers<T>(xs: seq<T>, x: T)
    ensures forall y :: y in Without(xs, x) <==> y in xs && y != x
    decreases |xs|
  {
    if xs != [] {
      var init, y := xs[..|xs| - 1], xs[|xs| - 1];
      WithoutMembers(init, x);
      SplitLast(xs);
      WithoutPush(init, y, x);
    }
  }

  /** Removing an element that is absent changes nothing. */
  lemma {:induction false} WithoutAbsent<T>(xs: seq<T>, x: T)
    requires x !in xs
    ensures Without(xs, x) == xs
    decreases |xs|
  {
    if xs != [] {
      var init, y := xs[..|xs| - 1], xs[|xs| - 1];
      assert x !in init by {
        SplitLast(xs);
      }
      WithoutAbsent(init, x);
      SplitLast(xs);
      WithoutPush(init, y, x);
    }
  }

  /** Removing `x` drops all its copies and keeps every copy of the rest. */
  lemma {:induction false} WithoutCount<T>(xs: seq<T>, x: T, y: T)
    ensures multiset(Without(xs, x))[y] == if y == x then 0 else multiset(xs)[y]
    decreases |xs|
  {
    if xs != [] {
      var init, z := xs[..|xs| - 1], xs[|xs| - 1];
      WithoutCount(init, x, y);
      SplitLast(xs);
      WithoutPush(init, z, x);
      assert multiset(xs) == multiset(init) + multiset{z};
    }
  }

  /** The removal works piece by piece, so it keeps the order of the rest. */
  lemma {:induction false} WithoutConcat<T>(a: seq<T>, b: seq<T>, x: T)
    ensures Without(a + b, x) == Without(a, x) + Without(b, x)
    decreases |b|
  {
    if b == [] {
      AppendEmpty(a);
      AppendEmpty(Without(a, x));
    } else {
      var init, y := b[..|b| - 1], b[|b| - 1];
      WithoutConcat(a, init, x);
      SplitLast(b);
      Reassociate(a, init, [y]);
      WithoutPush(a + init, y, x);
      WithoutPush(init, y, x);
      Reassociate(Without(a, x), Without(init, x), if y == x then [] else [y]);
    }
  }

  /** The first position at or after `i` whose element satisfies `p`, or
      `|xs|` when there is none. */
  function FirstFrom<T>(xs: seq<T>, i: nat, p: T -> bool): (r: nat)
    decreases |xs| - i
    ensures i <= |xs| ==> i <= r <= |xs|
    ensures forall j :: i <= j < r && j < |xs| ==> !p(xs[j])
    ensures r < |xs| ==> p(xs[r])
  {
    if i >= |xs| then |xs|
    else if p(xs[i]) then i
    else FirstFrom(xs, i + 1, p)
  }

  /** `FirstFrom` is the one position that satisfies its contract. */
  lemma {:induction false} FirstFromIs<T>(xs: seq<T>, i: nat, p: T -> bool, j: nat)
    requires i <= j <= |xs|
    requires forall k :: i <= k < j ==> !p(xs[k])
    requires j == |xs| || p(xs[j])
    ensures FirstFrom(xs, i, p) == j
    decreases |xs| - i
  {
    if i < j {
      FirstFromIs(xs, i + 1, p, j);
    }
  }

  /** Searching past a prefix of `xs` is searching the rest. */
  lemma {:induction false} FirstFromShift<T>(a: seq<T>, b: seq<T>, j: nat, p: T -> bool)
    requires j <= |b|
    ensures FirstFrom(a + b, |a| + j, p) == |a| + FirstFrom(b, j, p)
    decreases |b| - j
  {
    if j < |b| {
      assert (a + b)[|a| + j] == b[j];
      FirstFromShift(a, b, j + 1, p);
    }
  }

  /** A search through a prefix in which nothing satisfies `p` goes on in
      the rest. */
  lemma FirstFromSkip<T>(a: seq<T>, b: seq<T>, p: T -> bool)
    requires forall k :: 0 <= k < |a| ==> !p(a[k])
    ensures FirstFrom(a + b, 0, p) == |a| + FirstFrom(b, 0, p)
  {
    var j := |a| + FirstFrom(b, 0, p);
    forall k | 0 <= k < j ensures !p((a + b)[k]) {
      if k >= |a| {
        assert (a + b)[k] == b[k - |a|];
      }
    }
    if j < |a + b| {
      assert (a + b)[j] == b[j - |a|];
    }
    FirstFromIs(a + b, 0, p, j);
  }

  /** `xs.indexOf(x)` for an `x` that occurs. */
  function FirstIndex<T(==)>(xs: seq<T>, x: T): (i: nat)
    requires x in xs
    ensures i < |xs| && xs[i] == x && forall j :: 0 <= j < i ==> xs[j] != x
  {
    if xs[0] == x then 0 else 1 + FirstIndex(xs[1..], x)
  }

  /** The iteration order of `new Set(xs)`: each element once, where it
      first occurs. */
  function Distinct<T(==)>(xs: seq<T>): seq<T>
    decreases |xs|
  {
    if xs == [] then []
    else
      var init := xs[..|xs| - 1];
      Distinct(init) + if xs[|xs| - 1] in init then [] else [xs[|xs| - 1]]
  }

  predicate NoDuplicates<T(==)>(xs: seq<T>) {
    forall i, j :: 0 <= i < j < |xs| ==> xs[i] != xs[j]
  }

  /** The set holds each element once, and exactly the elements of the list. */
  lemma {:induction false} DistinctMembers<T>(xs: seq<T>)
    ensures NoDuplicates(Distinct(xs))
    ensures forall x :: x in Distinct(xs) <==> x in xs
    ensures |Distinct(xs)| <= |xs|
    decreases |xs|
  {
    if xs != [] {
      var init := xs[..|xs| - 1];
      DistinctMembers(init);
      SplitLast(xs);
    }
  }

  /** A list repeats nothing exactly when its multiset counts nothing twice. */
  lemma {:induction false} NoDuplicatesCount<T>(xs: seq<T>)
    ensures NoDuplicates(xs) <==> forall x :: multiset(xs)[x] <= 1
    decreases |xs|
  {
    if xs != [] {
      var init, z := xs[..|xs| - 1], xs[|xs| - 1];
      NoDuplicatesCount(init);
      SplitLast(xs);
      assert multiset(xs) == multiset(init) + multiset{z};
      if NoDuplicates(xs) {
        assert NoDuplicates(init);
        assert z !in init;
      } else {
        var i, j :| 0 <= i < j < |xs| && xs[i] == xs[j];
        if j < |xs| - 1 {
          assert init[i] == init[j];
          var x :| multiset(init)[x] > 1;
          assert multiset(xs)[x] > 1;
        } else {
          assert init[i] == z;
          assert multiset(xs)[z] > 1;
        }
      }
    }
  }

  /** A permutation of a list without duplicates has none either. */
  lemma PermutationNoDuplicates<T>(a: seq<T>, b: seq<T>)
    requires multiset(a) == multiset(b) && NoDuplicates(a)
    ensures NoDuplicates(b)
  {
    NoDuplicatesCount(a);
    NoDuplicatesCount(b);
  }
}
