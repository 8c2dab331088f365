/** Order-preserving selection from sequences. */
module Seqs {

  /** `a` is obtained from `b` by deleting elements, keeping the order of the rest. */
  predicate IsSubseq<T(==)>(a: seq<T>, b: seq<T>)
    decreases |b|
  {
    |a| == 0 ||
    (|b| > 0 && ((a[0] == b[0] && IsSubseq(a[1..], b[1..])) || IsSubseq(a, b[1..])))
  }

  /** The elements of `s` that satisfy `keep`, in their original order
      (a queryset `.filter(...)`). */
  function Filter<T(==,!new)>(s: seq<T>, keep: T -> bool): (r: seq<T>)
    ensures forall x :: x in r <==> x in s && keep(x)
    decreases |s|
  {
    if |s| == 0 then []
    else if keep(s[0]) then [s[0]] + Filter(s[1..], keep)
    else Filter(s[1..], keep)
  }

  /** Filtering keeps the order of what it keeps. */
  lemma {:induction false} FilterIsSubseq<T(!new)>(s: seq<T>, keep: T -> bool)
    ensures IsSubseq(Filter(s, keep), s)
    decreases |s|
  {
    if |s| > 0 {
      FilterIsSubseq(s[1..], keep);
      var r := Filter(s, keep);
      if keep(s[0]) {
        assert r[0] == s[0] && r[1..] == Filter(s[1..], keep);
      }
    }
  }

  /** Filtering keeps every copy of a kept element and no copy of a dropped one. */
  lemma {:induction false} FilterCount<T(!new)>(s: seq<T>, keep: T -> bool, x: T)
    ensures multiset(Filter(s, keep))[x] == if keep(x) then multiset(s)[x] else 0
    decreases |s|
  {
    if |s| > 0 {
      FilterCount(s[1..], keep, x);
      assert s == [s[0]] + s[1..];
    }
  }

  /** Filtering keeps everything when every element passes. */
  lemma {:induction false} FilterKeepsAll<T(!new)>(s: seq<T>, keep: T -> bool)
    requires forall i :: 0 <= i < |s| ==> keep(s[i])
    ensures Filter(s, keep) == s
    decreases |s|
  {
    if |s| > 0 {
      assert keep(s[0]);
      FilterKeepsAll(s[1..], keep);
      assert [s[0]] + s[1..] == s;
    }
  }

  lemma {:induction false} SubseqReflexive<T>(a: seq<T>)
    ensures IsSubseq(a, a)
    decreases |a|
  {
    if |a| > 0 {
      SubseqReflexive(a[1..]);
    }
  }

  /** Keeping elements of a kept subsequence keeps a subsequence. */
  lemma {:induction false} SubseqTransitive<T>(a: seq<T>, b: seq<T>, c: seq<T>)
    requires IsSubseq(a, b) && IsSubseq(b, c)
    ensures IsSubseq(a, c)
    decreases |c|
  {
    if |a| > 0 {
      if |b| > 0 && |c| > 0 && b[0] == c[0] && IsSubseq(b[1..], c[1..]) {
        if a[0] == b[0] && IsSubseq(a[1..], b[1..]) {
          SubseqTransitive(a[1..], b[1..], c[1..]);
        } else {
          SubseqTransitive(a, b[1..], c[1..]);
        }
      } else {
        SubseqTransitive(a, b, c[1..]);
      }
    }
  }

  /** Concatenation regroups freely. */
  lemma Assoc<T>(x: seq<T>, y: seq<T>, z: seq<T>)
    ensures x + (y + z) == (x + y) + z
  {
  }

  /** An element missing from both parts is missing from their concatenation. */
  lemma NotInConcat<T>(x: T, a: seq<T>, b: seq<T>)
    requires x !in a && x !in b
    ensures x !in a + b
  {
  }

  /** A prefix followed by the next element is the longer prefix. */
  lemma PrefixSnoc<T>(s: seq<T>, i: nat)
    requires i < |s|
    ensures s[..i] + [s[i]] == s[..i + 1]
  {
  }

  /** A sequence is its prefix followed by the rest. */
  lemma PrefixRest<T>(s: seq<T>, i: nat)
    requires i <= |s|
    ensures s[..i] + s[i..] == s
  {
  }
}
