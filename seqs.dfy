/**
 * Sequence operations the edge table is built from: `Array.from(new Set(s))`
 * (the distinct elements in first-occurrence order) and `Array.prototype.filter`.
 */
module Seqs {

  /** No element occurs twice. */
  predicate NoDuplicates<T(==)>(s: seq<T>) {
    forall i, j :: 0 <= i < j < |s| ==> s[i] != s[j]
  }

  /** The position of the first occurrence of `x` in `s`. */
  function IndexOf<T(==)>(s: seq<T>, x: T): (i: nat)
    requires x in s
    ensures i < |s| && s[i] == x
    ensures forall k :: 0 <= k < i ==> s[k] != x
  {
    if s[0] == x then 0 else 1 + IndexOf(s[1..], x)
  }

  /**
   * The distinct elements of `s`, each kept at its first occurrence: what
   * `Array.from(new Set(s))` yields, since a JavaScript Set iterates in
   * insertion order and ignores repeated insertions.
   */
  function Distinct<T(==,!new)>(s: seq<T>): (r: seq<T>)
    ensures NoDuplicates(r)
    ensures forall x :: x in r <==> x in s
    ensures |r| <= |s|
  {
    if s == [] then []
    else
      var p := s[..|s| - 1];
      assert s == p + [s[|s| - 1]];
      var d := Distinct(p);
      if s[|s| - 1] in d then d else d + [s[|s| - 1]]
  }

  /** Appending an element to the input appends it to the distinct elements unless it was already there. */
  lemma DistinctSnoc<T(!new)>(p: seq<T>, x: T)
    ensures Distinct(p + [x]) == if x in Distinct(p) then Distinct(p) else Distinct(p) + [x]
  {
    assert (p + [x])[..|p|] == p;
  }

  /** Deduplicating a sequence without repeated elements leaves it as it is. */
  lemma {:induction false} DistinctOfNoDuplicates<T(!new)>(s: seq<T>)
    requires NoDuplicates(s)
    ensures Distinct(s) == s
  {
    if s != [] {
      var p, x := s[..|s| - 1], s[|s| - 1];
      assert s == p + [x];
      DistinctOfNoDuplicates(p);
      DistinctSnoc(p, x);
      assert x !in p by {
        forall k | 0 <= k < |p| ensures p[k] != x {
          assert s[k] == p[k];
        }
      }
    }
  }

  /** A sequence of length two is the sequence of its two elements. */
  lemma PairIsItsElements<T>(s: seq<T>)
    requires |s| == 2
    ensures s == [s[0], s[1]]
  {
  }

  /** A first occurrence inside a prefix is the first occurrence in the whole. */
  lemma {:induction false} IndexOfInPrefix<T>(a: seq<T>, b: seq<T>, x: T)
    requires x in a
    ensures IndexOf(a + b, x) == IndexOf(a, x)
  {
    if a[0] != x {
      assert (a + b)[1..] == a[1..] + b;
      IndexOfInPrefix(a[1..], b, x);
    }
  }

  /** An element absent from the prefix first occurs in the suffix. */
  lemma {:induction false} IndexOfPastPrefix<T>(a: seq<T>, b: seq<T>, x: T)
    requires x !in a && x in b
    ensures IndexOf(a + b, x) == |a| + IndexOf(b, x)
  {
    if a != [] {
      assert (a + b)[0] == a[0];
      assert (a + b)[1..] == a[1..] + b;
      IndexOfPastPrefix(a[1..], b, x);
    } else {
      assert a + b == b;
    }
  }

  /**
   * Distinct keeps first-occurrence order: an element listed earlier in the
   * result first occurs earlier in the input.
   */
  lemma {:induction false} DistinctFirstOccurrenceOrder<T(!new)>(s: seq<T>, i: nat, j: nat)
    requires i < j < |Distinct(s)|
    ensures IndexOf(s, Distinct(s)[i]) < IndexOf(s, Distinct(s)[j])
  {
    var p := s[..|s| - 1];
    var last := s[|s| - 1];
    assert s == p + [last];
    var d := Distinct(p);
    var x, y := Distinct(s)[i], Distinct(s)[j];
    assert x in p && x == d[i];
    IndexOfInPrefix(p, [last], x);
    if j < |d| {
      assert y == d[j];
      IndexOfInPrefix(p, [last], y);
      DistinctFirstOccurrenceOrder(p, i, j);
    } else {
      assert y == last && y !in p;
      IndexOfPastPrefix(p, [last], y);
    }
  }

  /** The elements of `s` that satisfy `keep`, in their input order (`Array.prototype.filter`). */
  function Filter<T(==,!new)>(s: seq<T>, keep: T -> bool): (r: seq<T>)
    ensures forall x :: multiset(r)[x] == if keep(x) then multiset(s)[x] else 0
  {
    if s == [] then []
    else
      assert s == [s[0]] + s[1..];
      (if keep(s[0]) then [s[0]] else []) + Filter(s[1..], keep)
  }

  /** A filter every element passes keeps the whole sequence. */
  lemma {:induction false} FilterKeepsAll<T(!new)>(s: seq<T>, keep: T -> bool)
    requires forall x :: x in s ==> keep(x)
    ensures Filter(s, keep) == s
  {
    if s != [] {
      assert forall x :: x in s[1..] ==> x in s;
      FilterKeepsAll(s[1..], keep);
      assert s == [s[0]] + s[1..];
    }
  }

  /** A filter no element passes keeps nothing. */
  lemma FilterDropsAll<T(!new)>(s: seq<T>, keep: T -> bool)
    requires forall x :: x in s ==> !keep(x)
    ensures Filter(s, keep) == []
  {
  }

  /** Filtering distributes over concatenation: the relative order of kept elements is the input's. */
  lemma {:induction false} FilterConcat<T(!new)>(a: seq<T>, b: seq<T>, keep: T -> bool)
    ensures Filter(a + b, keep) == Filter(a, keep) + Filter(b, keep)
  {
    if a == [] {
      assert a + b == b;
    } else {
      assert (a + b)[0] == a[0];
      assert (a + b)[1..] == a[1..] + b;
      FilterConcat(a[1..], b, keep);
    }
  }

  /** Filtering by a stricter test after a weaker one is filtering by the stricter test alone. */
  lemma {:induction false} FilterNarrow<T(!new)>(s: seq<T>, wide: T -> bool, narrow: T -> bool)
    requires forall x :: narrow(x) ==> wide(x)
    ensures Filter(Filter(s, wide), narrow) == Filter(s, narrow)
  {
    if s != [] {
      FilterNarrow(s[1..], wide, narrow);
      var head := if wide(s[0]) then [s[0]] else [];
      FilterConcat(head, Filter(s[1..], wide), narrow);
      if wide(s[0]) {
        assert head[1..] == [];
      }
    }
  }
}
