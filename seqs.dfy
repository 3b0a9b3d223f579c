/** Sequence operations the registry applies to Java lists: stream filters, `removeIf` and
    `List.remove(Object)`. */
module Seqs {

  /** The elements of `s` that satisfy `p`, in their original order (a stream `filter`). */
  function Filter<T(!new)>(s: seq<T>, p: T -> bool): (r: seq<T>)
    ensures |r| <= |s|
    ensures forall x :: x in r <==> x in s && p(x)
  {
    if s == [] then []
    else if p(s[0]) then [s[0]] + Filter(s[1..], p)
    else Filter(s[1..], p)
  }

  /** Filtering distributes over concatenation, so the relative order of kept elements is the
      order they had in the input. */
  lemma {:induction false} FilterAppend<T(!new)>(a: seq<T>, b: seq<T>, p: T -> bool)
    ensures Filter(a + b, p) == Filter(a, p) + Filter(b, p)
  {
    if a != [] {
      assert (a + b)[0] == a[0] && (a + b)[1..] == a[1..] + b;
      FilterAppend(a[1..], b, p);
    } else {
      assert a + b == b;
    }
  }

  /** Filtering with a predicate that every element satisfies changes nothing. */
  lemma {:induction false} FilterKeepsAll<T(!new)>(s: seq<T>, p: T -> bool)
    requires forall x :: x in s ==> p(x)
    ensures Filter(s, p) == s
  {
    if s != [] {
      FilterKeepsAll(s[1..], p);
    }
  }

  /** `s` holds no element twice. */
  predicate NoDup<T(==)>(s: seq<T>)
  {
    forall i, j :: 0 <= i < j < |s| ==> s[i] != s[j]
  }

  /** The index of the first occurrence of `x` in `s` (`List.indexOf`). */
  function FirstIndex<T(==)>(s: seq<T>, x: T): (k: nat)
    requires x in s
    ensures k < |s| && s[k] == x && x !in s[..k]
  {
    if s[0] == x then 0
    else
      assert s[1..][..FirstIndex(s[1..], x)] == s[1..FirstIndex(s[1..], x) + 1];
      FirstIndex(s[1..], x) + 1
  }

  /** Java's `List.remove(Object)`: drops the first occurrence of `x`, if there is one.
      `RemoveFirstDropsFirst` says which occurrence goes and that the rest keep their order. */
  function RemoveFirst<T(==)>(s: seq<T>, x: T): (r: seq<T>)
    ensures x in s ==> |r| == |s| - 1
    ensures x !in s ==> r == s
    ensures multiset(r) == multiset(s) - multiset{x}
  {
    if s == [] then []
    else
      assert s == [s[0]] + s[1..];
      if s[0] == x then s[1..] else [s[0]] + RemoveFirst(s[1..], x)
  }

  /** The element removed is the first occurrence of `x`; the elements before and after it
      stay, in their order. */
  lemma {:induction false} RemoveFirstDropsFirst<T>(s: seq<T>, x: T)
    requires x in s
    ensures RemoveFirst(s, x) == s[..FirstIndex(s, x)] + s[FirstIndex(s, x) + 1..]
  {
    if s[0] != x {
      RemoveFirstDropsFirst(s[1..], x);
      var k := FirstIndex(s[1..], x);
      assert s[1..][..k] == s[1..k + 1] && s[1..][k + 1..] == s[k + 2..];
      assert [s[0]] + s[1..k + 1] == s[..k + 1];
    }
  }

  /** Removing the first `x` from a list without duplicates leaves no `x`, keeps every other
      element, and keeps the list free of duplicates. */
  lemma RemoveFirstNoDup<T>(s: seq<T>, x: T)
    requires NoDup(s)
    ensures x !in RemoveFirst(s, x)
    ensures forall y :: y != x ==> (y in RemoveFirst(s, x) <==> y in s)
    ensures NoDup(RemoveFirst(s, x))
  {
    var r := RemoveFirst(s, x);
    NoDupCounts(s);
    assert multiset(r)[x] == 0;
    forall y | y != x
      ensures y in r <==> y in s
    {
      assert multiset(r)[y] == multiset(s)[y];
    }
    forall y
      ensures multiset(r)[y] <= 1
    {
    }
    CountsNoDup(r);
  }

  /** A list without duplicates holds each element at most once. */
  lemma {:induction false} NoDupCounts<T>(s: seq<T>)
    requires NoDup(s)
    ensures forall y :: multiset(s)[y] <= 1
  {
    if s != [] {
      assert s == [s[0]] + s[1..];
      NoDupCounts(s[1..]);
      forall j | 0 <= j < |s[1..]|
        ensures s[1..][j] != s[0]
      {
        assert s[1..][j] == s[j + 1];
      }
    }
  }

  /** Conversely, a list holding each element at most once has no duplicates. */
  lemma {:induction false} CountsNoDup<T>(s: seq<T>)
    requires forall y :: multiset(s)[y] <= 1
    ensures NoDup(s)
  {
    if s != [] {
      assert s == [s[0]] + s[1..];
      forall y
        ensures multiset(s[1..])[y] <= 1
      {
        assert multiset(s)[y] == multiset([s[0]])[y] + multiset(s[1..])[y];
      }
      CountsNoDup(s[1..]);
      assert multiset(s)[s[0]] == multiset([s[0]])[s[0]] + multiset(s[1..])[s[0]];
      assert s[0] !in multiset(s[1..]);
      forall i, j | 0 <= i < j < |s|
        ensures s[i] != s[j]
      {
        if i == 0 {
          assert s[j] == s[1..][j - 1];
          assert s[j] in s[1..];
        } else {
          assert s[i] == s[1..][i - 1] && s[j] == s[1..][j - 1];
        }
      }
    }
  }
}
