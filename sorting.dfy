/**
 * `slices.SortFunc`: an in-place sort of a slice under a comparison. The
 * standard library's algorithm is not part of this model; the stand-in here
 * is an insertion sort by adjacent swaps, which promises what callers rely
 * on: the result is ordered and is a permutation of the input.
 */
module Sorting {

  /** Any two elements are comparable. */
  ghost predicate Total<T(!new)>(le: (T, T) -> bool)
  {
    forall x, y :: le(x, y) || le(y, x)
  }

  ghost predicate Transitive<T(!new)>(le: (T, T) -> bool)
  {
    forall x, y, z :: le(x, y) && le(y, z) ==> le(x, z)
  }

  ghost predicate SortedBy<T>(s: seq<T>, le: (T, T) -> bool)
  {
    forall p, q :: 0 <= p < q < |s| ==> le(s[p], s[q])
  }

  /**
   * Insertion of the element at `j` into `s[..i + 1]` in progress: apart
   * from position `j` the prefix is ordered, everything before `j` is ordered
   * before everything after it, and the element at `j` before what follows it.
   */
  ghost predicate Inserting<T>(s: seq<T>, i: nat, j: nat, le: (T, T) -> bool)
    requires j <= i < |s|
  {
    && (forall p, q :: 0 <= p < q <= i && q != j && p != j ==> le(s[p], s[q]))
    && (forall p, q :: 0 <= p < j < q <= i ==> le(s[p], s[q]))
    && (forall q :: j < q <= i ==> le(s[j], s[q]))
  }

  /** Swapping the element at `j` with a predecessor ordered after it moves the insertion one step down. */
  lemma SwapDown<T(!new)>(s: seq<T>, i: nat, j: nat, le: (T, T) -> bool)
    requires Total(le) && Transitive(le)
    requires 0 < j <= i < |s| && Inserting(s, i, j, le) && !le(s[j - 1], s[j])
    ensures Inserting(s[j - 1 := s[j]][j := s[j - 1]], i, j - 1, le)
  {
    var t := s[j - 1 := s[j]][j := s[j - 1]];
    assert le(s[j], s[j - 1]);
    forall q | j - 1 < q <= i
      ensures le(t[j - 1], t[q])
    {
      if q > j {
        assert le(s[j], s[q]);
      }
    }
    forall p, q | 0 <= p < j - 1 < q <= i
      ensures le(t[p], t[q])
    {
      assert le(s[p], s[j - 1]);
      if q > j {
        assert le(s[p], s[q]);
      } else {
        assert t[q] == s[j - 1];
      }
    }
    forall p, q | 0 <= p < q <= i && q != j - 1 && p != j - 1
      ensures le(t[p], t[q])
    {
      if q == j {
        assert t[q] == s[j - 1];
        if p < j - 1 {
          assert le(s[p], s[j - 1]);
        }
      } else if p == j {
        assert t[p] == s[j - 1] && le(s[j - 1], s[q]);
      }
    }
  }

  /** Moves `a[i]` down into the ordered prefix `a[..i]` by adjacent swaps. */
  method InsertInto<T(!new)>(a: array<T>, i: nat, le: (T, T) -> bool)
    requires Total(le) && Transitive(le)
    requires i < a.Length && SortedBy(a[..i], le)
    modifies a
    ensures SortedBy(a[..i + 1], le)
    ensures multiset(a[..]) == old(multiset(a[..]))
    ensures a[i + 1..] == old(a[i + 1..])
  {
    var j := i;
    while j > 0 && !le(a[j - 1], a[j])
      invariant 0 <= j <= i
      invariant multiset(a[..]) == old(multiset(a[..]))
      invariant a[i + 1..] == old(a[i + 1..])
      invariant Inserting(a[..], i, j, le)
      decreases j
    {
      SwapDown(a[..], i, j, le);
      a[j - 1], a[j] := a[j], a[j - 1];
      j := j - 1;
    }
  }

  /** `slices.SortFunc(a, cmp)` with `le(x, y)` meaning `cmp(x, y) <= 0`. */
  method SortInPlace<T(!new)>(a: array<T>, le: (T, T) -> bool)
    requires Total(le) && Transitive(le)
    modifies a
    ensures SortedBy(a[..], le)
    ensures multiset(a[..]) == old(multiset(a[..]))
  {
    var i := 0;
    while i < a.Length
      invariant 0 <= i <= a.Length
      invariant SortedBy(a[..i], le)
      invariant multiset(a[..]) == old(multiset(a[..]))
    {
      InsertInto(a, i, le);
      i := i + 1;
    }
    assert a[..i] == a[..];
  }

  /** Sorts a copy of `s`: the slice is sorted in place, and its contents are the result. */
  method Sorted<T(!new)>(s: seq<T>, le: (T, T) -> bool) returns (r: seq<T>)
    requires Total(le) && Transitive(le)
    ensures SortedBy(r, le)
    ensures multiset(r) == multiset(s)
    ensures forall x :: x in r <==> x in s
  {
    if |s| == 0 {
      return s;
    }
    var a := new T[|s|](i requires 0 <= i < |s| => s[i]);
    assert a[..] == s;
    SortInPlace(a, le);
    r := a[..];
    forall x
      ensures x in r <==> x in s
    {
      assert x in r <==> x in multiset(r);
      assert x in s <==> x in multiset(s);
    }
  }
}
