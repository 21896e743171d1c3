/**
 * Kotlin's `sorted()` / `sortedBy { key }` on strings: a stable sort under `String.compareTo`,
 * modelled as an insertion sort and specified by its three defining properties
 * (permutation, sortedness, stability).
 */
module Sorting {
  import opened Seqs

  /** `a.compareTo(b) <= 0`: lexicographic by character code, a proper prefix before its extensions. */
  predicate LexLessEq(a: string, b: string)
    decreases |a|
  {
    if |a| == 0 then true
    else if |b| == 0 then false
    else if a[0] != b[0] then a[0] < b[0]
    else LexLessEq(a[1..], b[1..])
  }

  lemma {:induction false} LexReflexive(a: string)
    ensures LexLessEq(a, a)
    decreases |a|
  {
    if |a| > 0 {
      LexReflexive(a[1..]);
    }
  }

  lemma {:induction false} LexTotal(a: string, b: string)
    ensures LexLessEq(a, b) || LexLessEq(b, a)
    decreases |a|
  {
    if |a| > 0 && |b| > 0 && a[0] == b[0] {
      LexTotal(a[1..], b[1..]);
    }
  }

  lemma {:induction false} LexTransitive(a: string, b: string, c: string)
    requires LexLessEq(a, b) && LexLessEq(b, c)
    ensures LexLessEq(a, c)
    decreases |a|
  {
    if |a| > 0 && |b| > 0 && |c| > 0 && a[0] == b[0] && b[0] == c[0] {
      LexTransitive(a[1..], b[1..], c[1..]);
    }
  }

  lemma {:induction false} LexAntisymmetric(a: string, b: string)
    requires LexLessEq(a, b) && LexLessEq(b, a)
    ensures a == b
    decreases |a|
  {
    if |a| > 0 && |b| > 0 {
      LexAntisymmetric(a[1..], b[1..]);
      assert a == [a[0]] + a[1..];
      assert b == [b[0]] + b[1..];
    }
  }

  /** Every earlier element's key is at most every later element's key. */
  ghost predicate SortedBy<T>(s: seq<T>, key: T -> string) {
    forall i, j :: 0 <= i < j < |s| ==> LexLessEq(key(s[i]), key(s[j]))
  }

  /** The elements of `s` whose key is `k`, in their order in `s`. */
  function WithKey<T>(s: seq<T>, key: T -> string, k: string): seq<T>
    decreases |s|
  {
    if |s| == 0 then []
    else (if key(s[0]) == k then [s[0]] else []) + WithKey(s[1..], key, k)
  }

  /** Insert `x` in front of the first element whose key is not smaller than `x`'s. */
  function InsertBy<T>(x: T, s: seq<T>, key: T -> string): (r: seq<T>)
    ensures |r| == |s| + 1
    ensures multiset(r) == multiset(s) + multiset{x}
    decreases |s|
  {
    if |s| == 0 then [x]
    else if LexLessEq(key(x), key(s[0])) then [x] + s
    else
      assert s == [s[0]] + s[1..];
      [s[0]] + InsertBy(x, s[1..], key)
  }

  lemma {:induction false} InsertBySorted<T>(x: T, s: seq<T>, key: T -> string)
    requires SortedBy(s, key)
    ensures SortedBy(InsertBy(x, s, key), key)
    decreases |s|
  {
    if |s| == 0 {
    } else if LexLessEq(key(x), key(s[0])) {
      forall j | 0 <= j < |s| ensures LexLessEq(key(x), key(s[j])) {
        if j > 0 {
          LexTransitive(key(x), key(s[0]), key(s[j]));
        }
      }
      ConsSorted(x, s, key);
    } else {
      LexTotal(key(x), key(s[0]));
      InsertBySorted(x, s[1..], key);
      InsertByBounded(x, s[1..], key, s[0]);
      ConsSorted(s[0], InsertBy(x, s[1..], key), key);
    }
  }

  /** An element no greater than every element of a sorted sequence can go in front of it. */
  lemma ConsSorted<T>(y: T, rest: seq<T>, key: T -> string)
    requires SortedBy(rest, key)
    requires forall j :: 0 <= j < |rest| ==> LexLessEq(key(y), key(rest[j]))
    ensures SortedBy([y] + rest, key)
  {
    var r := [y] + rest;
    forall i, j | 0 <= i < j < |r| ensures LexLessEq(key(r[i]), key(r[j])) {
      if i == 0 {
        assert r[j] == rest[j - 1];
      } else {
        assert r[i] == rest[i - 1] && r[j] == rest[j - 1];
      }
    }
  }

  /** A lower bound of `x` and of every element of `t` bounds every element after inserting `x`. */
  lemma InsertByBounded<T>(x: T, t: seq<T>, key: T -> string, y: T)
    requires LexLessEq(key(y), key(x))
    requires forall j :: 0 <= j < |t| ==> LexLessEq(key(y), key(t[j]))
    ensures forall j :: 0 <= j < |InsertBy(x, t, key)| ==> LexLessEq(key(y), key(InsertBy(x, t, key)[j]))
  {
    var r := InsertBy(x, t, key);
    forall j | 0 <= j < |r| ensures LexLessEq(key(y), key(r[j])) {
      assert r[j] in multiset(r);
      if r[j] != x {
        assert r[j] in multiset(t);
        var m :| 0 <= m < |t| && t[m] == r[j];
      }
    }
  }

  /** Inserting `x` places it before every element with the same key. */
  lemma {:induction false} InsertByWithKey<T>(x: T, s: seq<T>, key: T -> string, k: string)
    ensures WithKey(InsertBy(x, s, key), key, k) == (if key(x) == k then [x] else []) + WithKey(s, key, k)
    decreases |s|
  {
    if |s| == 0 {
      WithKeyCons(x, [], key, k);
      assert [x] + [] == [x];
      assert WithKey(s, key, k) == [];
    } else if LexLessEq(key(x), key(s[0])) {
      WithKeyCons(x, s, key, k);
    } else {
      LexReflexive(key(x));
      assert key(s[0]) != key(x);
      var rest := InsertBy(x, s[1..], key);
      InsertByWithKey(x, s[1..], key, k);
      assert InsertBy(x, s, key) == [s[0]] + rest;
      WithKeyCons(s[0], rest, key, k);
      var tail := WithKey(s[1..], key, k);
      var head := if key(s[0]) == k then [s[0]] else [];
      assert WithKey(s, key, k) == head + tail;
      if key(x) == k {
        assert head == [];
        assert WithKey(s, key, k) == tail;
        assert WithKey(InsertBy(x, s, key), key, k) == [x] + tail;
      } else {
        assert WithKey(rest, key, k) == tail;
        assert WithKey(InsertBy(x, s, key), key, k) == WithKey(s, key, k);
      }
    }
  }

  /** `WithKey` of a sequence with a first element. */
  lemma WithKeyCons<T>(y: T, t: seq<T>, key: T -> string, k: string)
    ensures WithKey([y] + t, key, k) == (if key(y) == k then [y] else []) + WithKey(t, key, k)
  {
    assert ([y] + t)[1..] == t;
  }

  /** `sortedBy { key }`. */
  function SortBy<T>(s: seq<T>, key: T -> string): (r: seq<T>)
    ensures |r| == |s|
    ensures multiset(r) == multiset(s)
    decreases |s|
  {
    if |s| == 0 then []
    else
      assert s == [s[0]] + s[1..];
      InsertBy(s[0], SortBy(s[1..], key), key)
  }

  /** Sorting a two-element sequence. */
  lemma SortPair<T>(a: T, b: T, key: T -> string)
    ensures SortBy([a, b], key) == if LexLessEq(key(a), key(b)) then [a, b] else [b, a]
  {
    assert [a, b][1..] == [b];
    assert [b][1..] == [];
    assert SortBy([b], key) == [b];
  }

  /** The result of `SortBy` is ordered by key. */
  lemma {:induction false} SortBySorted<T>(s: seq<T>, key: T -> string)
    ensures SortedBy(SortBy(s, key), key)
    decreases |s|
  {
    if |s| > 0 {
      SortBySorted(s[1..], key);
      InsertBySorted(s[0], SortBy(s[1..], key), key);
    }
  }

  /** `SortBy` is stable: elements sharing a key keep their relative order. */
  lemma {:induction false} SortByStable<T>(s: seq<T>, key: T -> string, k: string)
    ensures WithKey(SortBy(s, key), key, k) == WithKey(s, key, k)
    decreases |s|
  {
    if |s| > 0 {
      SortByStable(s[1..], key, k);
      InsertByWithKey(s[0], SortBy(s[1..], key), key, k);
    }
  }

  /** Membership is unchanged by sorting. */
  lemma SortByMembers<T>(s: seq<T>, key: T -> string)
    ensures forall x :: x in SortBy(s, key) <==> x in s
  {
    var r := SortBy(s, key);
    forall x ensures x in r <==> x in s {
      assert x in r <==> x in multiset(r);
      assert x in s <==> x in multiset(s);
    }
  }

  /** Sorting a duplicate-free sequence keeps it duplicate-free. */
  lemma SortByNoDuplicates<T>(s: seq<T>, key: T -> string)
    requires NoDuplicates(s)
    ensures NoDuplicates(SortBy(s, key))
  {
    var r := SortBy(s, key);
    forall i, j | 0 <= i < j < |r| ensures r[i] != r[j] {
      if r[i] == r[j] {
        RepeatedTwice(r, i, j);
        MultisetAtMostOnce(s, r[i]);
      }
    }
  }

  lemma RepeatedTwice<T>(r: seq<T>, i: nat, j: nat)
    requires i < j < |r| && r[i] == r[j]
    ensures multiset(r)[r[i]] >= 2
  {
    assert r == r[..j] + r[j..];
    assert r[i] in r[..j];
    assert r[j] in r[j..];
    assert multiset(r) == multiset(r[..j]) + multiset(r[j..]);
  }

  lemma {:induction false} MultisetAtMostOnce<T>(s: seq<T>, x: T)
    requires NoDuplicates(s)
    ensures multiset(s)[x] <= 1
    decreases |s|
  {
    if |s| > 0 {
      assert s == [s[0]] + s[1..];
      MultisetAtMostOnce(s[1..], x);
      if s[0] == x {
        assert x !in s[1..];
        assert multiset(s[1..])[x] == 0;
      }
    }
  }
}
