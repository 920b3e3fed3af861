/** Swift's `Array.sort()` / `sorted()` on `[Int]`: ascending order. The
    library's algorithm is not part of this model; `Sort` is a reference
    definition with the two properties callers rely on. */
module Sorting {
  import opened Codec

  predicate Sorted(s: seq<Int64>) {
    forall i, j :: 0 <= i < j < |s| ==> s[i] <= s[j]
  }

  /** Putting a number no larger than the first in front keeps a sequence sorted. */
  lemma SortedCons(h: Int64, t: seq<Int64>)
    requires Sorted(t) && (t == [] || h <= t[0])
    ensures Sorted([h] + t)
  {
    var r := [h] + t;
    forall i, j | 0 <= i < j < |r|
      ensures r[i] <= r[j]
    {
      if i == 0 {
        assert r[j] == t[j - 1] && t[0] <= t[j - 1];
      } else {
        assert r[i] == t[i - 1] && r[j] == t[j - 1];
      }
    }
  }

  function Insert(x: Int64, s: seq<Int64>): (r: seq<Int64>)
    requires Sorted(s)
    ensures Sorted(r)
    ensures multiset(r) == multiset(s) + multiset{x}
    ensures |r| == |s| + 1
    ensures r[0] == x || (s != [] && r[0] == s[0])
    decreases |s|
  {
    if s == [] || x <= s[0] then
      SortedCons(x, s);
      [x] + s
    else
      assert s == [s[0]] + s[1..];
      var t := Insert(x, s[1..]);
      SortedCons(s[0], t);
      [s[0]] + t
  }

  /** The elements of `s` in ascending order. */
  function Sort(s: seq<Int64>): (r: seq<Int64>)
    ensures Sorted(r)
    ensures multiset(r) == multiset(s)
    ensures |r| == |s|
    decreases |s|
  {
    if s == [] then []
    else
      assert s == [s[0]] + s[1..];
      Insert(s[0], Sort(s[1..]))
  }

  /** The least element of a sorted sequence is its first. */
  lemma SortedHead(a: seq<Int64>, v: Int64)
    requires Sorted(a) && v in multiset(a)
    ensures a[0] <= v
  {
    var i :| 0 <= i < |a| && a[i] == v;
    assert a[0] <= a[i];
  }

  lemma SortedTail(a: seq<Int64>)
    requires Sorted(a) && a != []
    ensures Sorted(a[1..])
  {
  }

  /** Two arrays holding the same numbers and starting with the same one hold
      the same numbers after it. */
  lemma SameTail(a: seq<Int64>, b: seq<Int64>)
    requires multiset(a) == multiset(b) && a != [] && b != [] && a[0] == b[0]
    ensures multiset(a[1..]) == multiset(b[1..])
  {
    assert a == [a[0]] + a[1..] && b == [b[0]] + b[1..];
    assert multiset(a[1..]) == multiset(a) - multiset{a[0]};
    assert multiset(b[1..]) == multiset(b) - multiset{b[0]};
  }

  /** A sequence is determined by its multiset once it is sorted. */
  lemma {:induction false} SortedPermutationUnique(a: seq<Int64>, b: seq<Int64>)
    requires Sorted(a) && Sorted(b)
    requires multiset(a) == multiset(b)
    ensures a == b
    decreases |a|
  {
    assert |b| == |multiset(b)| == |multiset(a)| == |a|;
    if a != [] {
      SortedHead(b, a[0]);
      SortedHead(a, b[0]);
      SameTail(a, b);
      SortedTail(a);
      SortedTail(b);
      SortedPermutationUnique(a[1..], b[1..]);
      assert a == [a[0]] + a[1..] && b == [b[0]] + b[1..];
    }
  }

  /** Sorting an already sorted array changes nothing, and sorting twice is
      sorting once. */
  lemma SortIdempotent(s: seq<Int64>)
    ensures Sorted(s) ==> Sort(s) == s
    ensures Sort(Sort(s)) == Sort(s)
  {
    if Sorted(s) {
      SortedPermutationUnique(Sort(s), s);
    }
    SortedPermutationUnique(Sort(Sort(s)), Sort(s));
  }
}
