/** `Array.prototype.sort` with a comparator that orders by a key: the sort
    is stable (ECMAScript 2019 and later), so the result is the unique
    permutation of the input that is ordered by the key and keeps elements
    with equal keys in their input order. The model sorts by insertion. */
module Sorting {
  /** Sort keys, compared lexicographically: the first component, then the
      second. A comparator `a - b` on one number is the key `(a, 0)`; a
      descending one is `(-a, 0)`. */
  type Key = (int, int)

  predicate KeyLe(a: Key, b: Key) {
    a.0 < b.0 || (a.0 == b.0 && a.1 <= b.1)
  }

  predicate Sorted<T>(s: seq<T>, key: T -> Key) {
    forall i, j :: 0 <= i < j < |s| ==> KeyLe(key(s[i]), key(s[j]))
  }

  /** `x` placed before the first element whose key is not below its own. */
  function Insert<T>(x: T, s: seq<T>, key: T -> Key): (r: seq<T>)
    ensures multiset(r) == multiset(s) + multiset{x}
  {
    if s == [] || KeyLe(key(x), key(s[0])) then [x] + s
    else
      assert s == [s[0]] + s[1..];
      [s[0]] + Insert(x, s[1..], key)
  }

  /** `[...s].sort(cmp)` */
  function SortBy<T>(s: seq<T>, key: T -> Key): seq<T>
  {
    if s == [] then [] else Insert(s[0], SortBy(s[1..], key), key)
  }

  /** The elements of `s` whose key is `k`, in order. */
  function WithKey<T>(s: seq<T>, key: T -> Key, k: Key): (r: seq<T>)
    ensures |r| <= |s|
  {
    if s == [] then []
    else (if key(s[0]) == k then [s[0]] else []) + WithKey(s[1..], key, k)
  }

  lemma {:induction false} InsertSorted<T>(x: T, s: seq<T>, key: T -> Key)
    requires Sorted(s, key)
    ensures Sorted(Insert(x, s, key), key)
    decreases |s|
  {
    if s == [] || KeyLe(key(x), key(s[0])) {
      SortedCons(x, s, key);
    } else {
      var t := Insert(x, s[1..], key);
      InsertSorted(x, s[1..], key);
      forall y | y in t ensures KeyLe(key(s[0]), key(y)) {
        assert y in multiset(t);
        if y != x {
          assert y in s[1..];
        }
      }
      SortedCons(s[0], t, key);
    }
  }

  /** A head no greater than any element of a sorted tail keeps it sorted. */
  lemma SortedCons<T>(h: T, t: seq<T>, key: T -> Key)
    requires Sorted(t, key)
    requires (forall y | y in t :: KeyLe(key(h), key(y))) || (t != [] && KeyLe(key(h), key(t[0])))
    ensures Sorted([h] + t, key)
  {
    var r := [h] + t;
    forall i, j | 0 <= i < j < |r| ensures KeyLe(key(r[i]), key(r[j])) {
      if i == 0 {
        assert r[j] == t[j - 1];
        assert r[j] in t;
        if t != [] && KeyLe(key(h), key(t[0])) && j > 1 {
          assert KeyLe(key(t[0]), key(t[j - 1]));
        }
      } else {
        assert r[i] == t[i - 1] && r[j] == t[j - 1];
      }
    }
  }

  /** The sort orders by the key. */
  lemma {:induction false} SortBySorted<T>(s: seq<T>, key: T -> Key)
    ensures Sorted(SortBy(s, key), key)
    decreases |s|
  {
    if s != [] {
      SortBySorted(s[1..], key);
      InsertSorted(s[0], SortBy(s[1..], key), key);
    }
  }

  /** The sort is a permutation. */
  lemma {:induction false} SortByPermutation<T>(s: seq<T>, key: T -> Key)
    ensures multiset(SortBy(s, key)) == multiset(s)
    ensures |SortBy(s, key)| == |s|
    decreases |s|
  {
    if s != [] {
      SortByPermutation(s[1..], key);
      assert s == [s[0]] + s[1..];
    }
  }

  lemma {:induction false} WithKeyConcat<T>(a: seq<T>, b: seq<T>, key: T -> Key, k: Key)
    ensures WithKey(a + b, key, k) == WithKey(a, key, k) + WithKey(b, key, k)
    decreases |a|
  {
    if a != [] {
      assert (a + b)[1..] == a[1..] + b;
      WithKeyConcat(a[1..], b, key, k);
    } else {
      assert a + b == b;
    }
  }

  /** Inserting `x` keeps the order among equal keys: `x` goes before every
      element that has its key. */
  lemma {:induction false} InsertStable<T>(x: T, s: seq<T>, key: T -> Key, k: Key)
    ensures WithKey(Insert(x, s, key), key, k) == WithKey([x], key, k) + WithKey(s, key, k)
    decreases |s|
  {
    if s == [] || KeyLe(key(x), key(s[0])) {
      WithKeyConcat([x], s, key, k);
    } else {
      InsertStable(x, s[1..], key, k);
      var t := Insert(x, s[1..], key);
      assert WithKey([s[0]] + t, key, k) == WithKey([s[0]], key, k) + WithKey(t, key, k) by {
        WithKeyConcat([s[0]], t, key, k);
      }
      assert s == [s[0]] + s[1..];
      WithKeyConcat([s[0]], s[1..], key, k);
      if key(x) == k {
        assert key(s[0]) != k;
      }
    }
  }

  /** The sort is stable: the elements of each key keep their input order. */
  lemma {:induction false} SortByStable<T>(s: seq<T>, key: T -> Key, k: Key)
    ensures WithKey(SortBy(s, key), key, k) == WithKey(s, key, k)
    decreases |s|
  {
    if s != [] {
      SortByStable(s[1..], key, k);
      InsertStable(s[0], SortBy(s[1..], key), key, k);
      assert s == [s[0]] + s[1..];
      WithKeyConcat([s[0]], s[1..], key, k);
    }
  }

  // ---- sort() without a comparator, on strings ----

  /** `a` comes no later than `b` in the order `sort()` gives strings:
      character by character, and a prefix before what extends it. */
  predicate StrLe(a: string, b: string)
    decreases |a|
  {
    a == [] || (b != [] && (a[0] < b[0] || (a[0] == b[0] && StrLe(a[1..], b[1..]))))
  }

  lemma {:induction false} StrLeTotal(a: string, b: string)
    ensures StrLe(a, b) || StrLe(b, a)
    decreases |a|
  {
    if a != [] && b != [] && a[0] == b[0] {
      StrLeTotal(a[1..], b[1..]);
    }
  }

  lemma {:induction false} StrLeAntisymmetric(a: string, b: string)
    requires StrLe(a, b) && StrLe(b, a)
    ensures a == b
    decreases |a|
  {
    if a != [] {
      StrLeAntisymmetric(a[1..], b[1..]);
      assert a == [a[0]] + a[1..] && b == [b[0]] + b[1..];
    }
  }

  lemma {:induction false} StrLeTransitive(a: string, b: string, c: string)
    requires StrLe(a, b) && StrLe(b, c)
    ensures StrLe(a, c)
    decreases |a|
  {
    if a != [] && a[0] == b[0] && b[0] == c[0] {
      StrLeTransitive(a[1..], b[1..], c[1..]);
    }
  }

  predicate StringsSorted(s: seq<string>) {
    forall i, j :: 0 <= i < j < |s| ==> StrLe(s[i], s[j])
  }

  /** `x` placed before the first string it does not come after. */
  function InsertString(x: string, s: seq<string>): (r: seq<string>)
    ensures multiset(r) == multiset(s) + multiset{x}
  {
    if s == [] || StrLe(x, s[0]) then [x] + s
    else
      assert s == [s[0]] + s[1..];
      [s[0]] + InsertString(x, s[1..])
  }

  /** `[...s].sort()` on strings. */
  function SortStrings(s: seq<string>): (r: seq<string>)
    ensures multiset(r) == multiset(s)
  {
    if s == [] then []
    else
      assert s == [s[0]] + s[1..];
      InsertString(s[0], SortStrings(s[1..]))
  }

  /** A head no later than every string of a sorted tail keeps it sorted. */
  lemma StringsSortedCons(h: string, t: seq<string>)
    requires StringsSorted(t)
    requires forall y | y in t :: StrLe(h, y)
    ensures StringsSorted([h] + t)
  {
    var r := [h] + t;
    forall i, j | 0 <= i < j < |r| ensures StrLe(r[i], r[j]) {
      assert r[j] == t[j - 1];
      if i > 0 {
        assert r[i] == t[i - 1];
      }
    }
  }

  lemma {:induction false} InsertStringSorted(x: string, s: seq<string>)
    requires StringsSorted(s)
    ensures StringsSorted(InsertString(x, s))
    decreases |s|
  {
    if s == [] || StrLe(x, s[0]) {
      forall y | y in s ensures StrLe(x, y) {
        var j :| 0 <= j < |s| && s[j] == y;
        if j > 0 {
          StrLeTransitive(x, s[0], y);
        }
      }
      StringsSortedCons(x, s);
    } else {
      var t := InsertString(x, s[1..]);
      InsertStringSorted(x, s[1..]);
      StrLeTotal(x, s[0]);
      forall y | y in t ensures StrLe(s[0], y) {
        assert y in multiset(t);
        if y != x {
          assert y in s[1..];
        }
      }
      StringsSortedCons(s[0], t);
    }
  }

  /** The sort orders the strings; its `ensures` says it permutes them. */
  lemma {:induction false} SortStringsSorted(s: seq<string>)
    ensures StringsSorted(SortStrings(s))
    decreases |s|
  {
    if s != [] {
      SortStringsSorted(s[1..]);
      InsertStringSorted(s[0], SortStrings(s[1..]));
    }
  }
}
