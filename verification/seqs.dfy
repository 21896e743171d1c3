/** The list operations of Kotlin's collection library that the dispatchers are built from. */
module Seqs {
  import opened Wrappers

  /** `indexOfFirst`/`firstOrNull`: the position of the first element satisfying `p`. */
  function FirstWhere<T>(s: seq<T>, p: T -> bool): (r: Option<nat>)
    ensures r.Some? ==> r.value < |s| && p(s[r.value])
    ensures r.Some? ==> forall j :: 0 <= j < r.value ==> !p(s[j])
    ensures r.None? <==> forall j :: 0 <= j < |s| ==> !p(s[j])
    decreases |s|
  {
    if |s| == 0 then None
    else if p(s[0]) then Some(0)
    else match FirstWhere(s[1..], p)
      case None => None
      case Some(k) => Some(k + 1)
  }

  /** `FirstWhere` finds `k` exactly when `k` is the first position satisfying `p`. */
  lemma FirstWhereIs<T>(s: seq<T>, p: T -> bool, k: nat)
    ensures FirstWhere(s, p) == Some(k) <==> k < |s| && p(s[k]) && forall j :: 0 <= j < k ==> !p(s[j])
  {
    var r := FirstWhere(s, p);
    if k < |s| && p(s[k]) && forall j :: 0 <= j < k ==> !p(s[j]) {
      assert r.Some?;
      assert p(s[r.value]);
      assert r.value <= k;
    }
  }

  /** `filter`: the elements satisfying `p`, in their original order. */
  function Filter<T(!new)>(s: seq<T>, p: T -> bool): (r: seq<T>)
    ensures |r| <= |s|
    ensures forall i :: 0 <= i < |r| ==> p(r[i])
    ensures forall x :: x in r <==> x in s && p(x)
    ensures multiset(r) <= multiset(s)
    decreases |s|
  {
    if |s| == 0 then []
    else
      assert s == [s[0]] + s[1..];
      if p(s[0]) then [s[0]] + Filter(s[1..], p) else Filter(s[1..], p)
  }

  /** A value is in a `flatMap` exactly when some element maps to a sequence holding it. */
  lemma FlatMapMembers<T, U(!new)>(s: seq<T>, f: T -> seq<U>, v: U)
    ensures v in FlatMap(s, f) <==> exists x :: x in s && v in f(x)
  {
    if v in FlatMap(s, f) {
      var i :| 0 <= i < |s| && v in f(s[i]);
      assert s[i] in s;
    }
    if exists x :: x in s && v in f(x) {
      var x :| x in s && v in f(x);
      var i :| 0 <= i < |s| && s[i] == x;
    }
  }

  /** Filtering a two-element sequence. */
  lemma FilterPair<T(!new)>(a: T, b: T, p: T -> bool)
    ensures Filter([a, b], p) == (if p(a) then [a] else []) + (if p(b) then [b] else [])
  {
    assert [a, b][1..] == [b];
    assert [b][1..] == [];
  }

  /** Filtering distributes over concatenation. */
  lemma {:induction false} FilterAppend<T(!new)>(a: seq<T>, b: seq<T>, p: T -> bool)
    ensures Filter(a + b, p) == Filter(a, p) + Filter(b, p)
    decreases |a|
  {
    if |a| > 0 {
      assert (a + b)[1..] == a[1..] + b;
      FilterAppend(a[1..], b, p);
    } else {
      assert a + b == b;
    }
  }

  /** `map`. */
  function Map<T, U>(s: seq<T>, f: T -> U): (r: seq<U>)
    ensures |r| == |s|
    ensures forall i :: 0 <= i < |s| ==> r[i] == f(s[i])
  {
    seq(|s|, i requires 0 <= i < |s| => f(s[i]))
  }

  /** `flatMap`: the concatenation of `f` applied to each element, in order. */
  function FlatMap<T, U(!new)>(s: seq<T>, f: T -> seq<U>): (r: seq<U>)
    ensures forall i, x :: 0 <= i < |s| && x in f(s[i]) ==> x in r
    ensures forall x :: x in r ==> exists i :: 0 <= i < |s| && x in f(s[i])
    decreases |s|
  {
    if |s| == 0 then []
    else
      var rest := FlatMap(s[1..], f);
      assert forall i :: 1 <= i < |s| ==> s[i] == s[1..][i - 1];
      f(s[0]) + rest
  }

  /** No element occurs twice. */
  predicate NoDuplicates<T(==)>(s: seq<T>) {
    forall i, j :: 0 <= i < j < |s| ==> s[i] != s[j]
  }

  /** `distinct()` continued after the elements in `seen`: the first occurrence of each element
      of `s` not already seen, in order. */
  function DistinctFrom<T(==,!new)>(s: seq<T>, seen: set<T>): (r: seq<T>)
    ensures NoDuplicates(r)
    ensures forall x :: x in r <==> x in s && x !in seen
    ensures |r| <= |s|
    decreases |s|
  {
    if |s| == 0 then []
    else if s[0] in seen then DistinctFrom(s[1..], seen)
    else [s[0]] + DistinctFrom(s[1..], seen + {s[0]})
  }

  /** `distinct()`: the first occurrence of every element, in order of first occurrence. */
  function Distinct<T(==,!new)>(s: seq<T>): (r: seq<T>)
    ensures NoDuplicates(r)
    ensures forall x :: x in r <==> x in s
  {
    DistinctFrom(s, {})
  }

  /** De-duplicating a concatenation de-duplicates the first part, then continues with the second
      part skipping everything the first part contained. */
  lemma {:induction false} DistinctFromAppend<T(!new)>(a: seq<T>, b: seq<T>, seen: set<T>)
    ensures DistinctFrom(a + b, seen) == DistinctFrom(a, seen) + DistinctFrom(b, seen + set x | x in a)
    decreases |a|
  {
    if |a| == 0 {
      assert a + b == b;
      assert (set x | x in a) == {};
      assert seen + (set x | x in a) == seen;
    } else if a[0] in seen {
      DistinctFromAppend(a[1..], b, seen);
      AppendSkipsSeen(a, b, seen);
    } else {
      DistinctFromAppend(a[1..], b, seen + {a[0]});
      AppendKeepsNew(a, b, seen);
    }
  }

  /** The step of `DistinctFromAppend` past a first element that was already seen. */
  lemma AppendSkipsSeen<T(!new)>(a: seq<T>, b: seq<T>, seen: set<T>)
    requires |a| > 0 && a[0] in seen
    requires DistinctFrom(a[1..] + b, seen) == DistinctFrom(a[1..], seen) + DistinctFrom(b, seen + set x | x in a[1..])
    ensures DistinctFrom(a + b, seen) == DistinctFrom(a, seen) + DistinctFrom(b, seen + set x | x in a)
  {
    assert (a + b)[1..] == a[1..] + b;
    assert (a + b)[0] == a[0];
    ElementsCons(a);
    assert seen + (set x | x in a[1..]) == seen + (set x | x in a);
  }

  /** The step of `DistinctFromAppend` past a first element that is new: it is kept and joins the seen set. */
  lemma AppendKeepsNew<T(!new)>(a: seq<T>, b: seq<T>, seen: set<T>)
    requires |a| > 0 && a[0] !in seen
    requires DistinctFrom(a[1..] + b, seen + {a[0]}) ==
      DistinctFrom(a[1..], seen + {a[0]}) + DistinctFrom(b, seen + {a[0]} + set x | x in a[1..])
    ensures DistinctFrom(a + b, seen) == DistinctFrom(a, seen) + DistinctFrom(b, seen + set x | x in a)
  {
    assert (a + b)[1..] == a[1..] + b;
    assert (a + b)[0] == a[0];
    ElementsCons(a);
    assert seen + {a[0]} + (set x | x in a[1..]) == seen + (set x | x in a);
    var r := DistinctFrom(a[1..], seen + {a[0]});
    assert [a[0]] + (r + DistinctFrom(b, seen + (set x | x in a))) ==
           ([a[0]] + r) + DistinctFrom(b, seen + (set x | x in a));
  }

  /** The elements of a non-empty sequence are its first one and the rest's. */
  lemma ElementsCons<T>(a: seq<T>)
    requires |a| > 0
    ensures (set x | x in a) == {a[0]} + set x | x in a[1..]
  {
    assert forall x :: x in a <==> x == a[0] || x in a[1..] by {
      assert a == [a[0]] + a[1..];
    }
  }
}
