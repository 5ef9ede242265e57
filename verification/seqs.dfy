/** Order-preserving selection from a sequence: the shape shared by the title stripping
    (`decompose` of some `h1` elements) and the bulk driver's `.docx` filter. */
module Seqs {

  /** The elements of `s` that satisfy `keep`, in their original order. */
  function Filter<T>(s: seq<T>, keep: T -> bool): seq<T>
    decreases |s|
  {
    if |s| == 0 then []
    else (if keep(s[0]) then [s[0]] else []) + Filter(s[1..], keep)
  }

  /** Filtering a non-empty sequence decides on its first element, then goes on. */
  lemma FilterCons<T>(s: seq<T>, keep: T -> bool)
    requires |s| > 0
    ensures Filter(s, keep) == (if keep(s[0]) then [s[0]] else []) + Filter(s[1..], keep)
  {
  }

  /** `idx` picks the elements of `a` out of `b` at strictly increasing positions. */
  ghost predicate IsEmbedding<T>(a: seq<T>, b: seq<T>, idx: seq<nat>)
  {
    && |idx| == |a|
    && (forall i | 0 <= i < |idx| :: idx[i] < |b| && a[i] == b[idx[i]])
    && (forall i, j | 0 <= i < j < |idx| :: idx[i] < idx[j])
  }

  /** `a` is `b` with some elements deleted and the rest in their original order. */
  ghost predicate IsSubsequence<T>(a: seq<T>, b: seq<T>)
  {
    exists idx :: IsEmbedding(a, b, idx)
  }

  /** Every kept element satisfies `keep`; an element is kept exactly as often as it occurs
      when it satisfies `keep`, and never otherwise. */
  lemma {:induction false} FilterCounts<T>(s: seq<T>, keep: T -> bool)
    ensures forall x | x in Filter(s, keep) :: keep(x)
    ensures forall x :: multiset(Filter(s, keep))[x] == if keep(x) then multiset(s)[x] else 0
    decreases |s|
  {
    if |s| > 0 {
      FilterCounts(s[1..], keep);
      assert s == [s[0]] + s[1..];
      assert multiset(s) == multiset([s[0]]) + multiset(s[1..]);
    }
  }

  /** An element is kept if and only if it occurs and satisfies `keep`. */
  lemma FilterMembership<T>(s: seq<T>, keep: T -> bool)
    ensures forall x :: x in Filter(s, keep) <==> x in s && keep(x)
  {
    FilterCounts(s, keep);
    forall x
      ensures x in Filter(s, keep) <==> x in s && keep(x)
    {
      assert x in Filter(s, keep) <==> multiset(Filter(s, keep))[x] > 0;
      assert x in s <==> multiset(s)[x] > 0;
    }
  }

  /** The kept elements keep their relative order. */
  lemma {:induction false} FilterIsSubsequence<T>(s: seq<T>, keep: T -> bool)
    ensures IsSubsequence(Filter(s, keep), s)
    decreases |s|
  {
    if |s| == 0 {
      assert IsEmbedding(Filter(s, keep), s, []);
    } else {
      var rest := Filter(s[1..], keep);
      FilterIsSubsequence(s[1..], keep);
      var idx :| IsEmbedding(rest, s[1..], idx);
      ShiftEmbedding(rest, s, idx);
      if keep(s[0]) {
        assert Filter(s, keep) == [s[0]] + rest;
      } else {
        assert Filter(s, keep) == rest;
      }
    }
  }

  /** Every position moved one place on. */
  function Shift(idx: seq<nat>): (r: seq<nat>)
    ensures |r| == |idx|
    ensures forall i | 0 <= i < |idx| :: r[i] == idx[i] + 1
  {
    seq(|idx|, i requires 0 <= i < |idx| => idx[i] + 1)
  }

  /** An embedding into the tail of `b` is one into `b`, and it can be extended by `b`'s head. */
  lemma ShiftEmbedding<T>(a: seq<T>, b: seq<T>, idx: seq<nat>)
    requires |b| > 0
    requires IsEmbedding(a, b[1..], idx)
    ensures IsEmbedding(a, b, Shift(idx))
    ensures IsEmbedding([b[0]] + a, b, [0] + Shift(idx))
  {
    var shifted := Shift(idx);
    assert IsEmbedding(a, b, shifted);
    var a', idx' := [b[0]] + a, [0] + shifted;
    forall i | 0 <= i < |idx'|
      ensures idx'[i] < |b| && a'[i] == b[idx'[i]]
    {
      if i > 0 {
        assert a'[i] == a[i - 1] && idx'[i] == shifted[i - 1];
      }
    }
    forall i, j | 0 <= i < j < |idx'|
      ensures idx'[i] < idx'[j]
    {
      if i > 0 {
        assert idx'[i] == shifted[i - 1] && idx'[j] == shifted[j - 1];
      }
    }
  }

  /** Filtering distributes over concatenation. */
  lemma {:induction false} FilterConcat<T>(a: seq<T>, b: seq<T>, keep: T -> bool)
    ensures Filter(a + b, keep) == Filter(a, keep) + Filter(b, keep)
    decreases |a|
  {
    if |a| == 0 {
      assert a + b == b;
    } else {
      var ab := a + b;
      assert ab[0] == a[0] && ab[1..] == a[1..] + b;
      FilterConcat(a[1..], b, keep);
      FilterCons(ab, keep);
      FilterCons(a, keep);
    }
  }

  /** A sequence whose elements all satisfy `keep` is its own filter. */
  lemma {:induction false} FilterKeepsAll<T>(s: seq<T>, keep: T -> bool)
    requires forall i | 0 <= i < |s| :: keep(s[i])
    ensures Filter(s, keep) == s
    decreases |s|
  {
    if |s| > 0 {
      FilterKeepsAll(s[1..], keep);
    }
  }

  /** Filtering never lengthens a sequence. */
  lemma {:induction false} FilterShrinks<T>(s: seq<T>, keep: T -> bool)
    ensures |Filter(s, keep)| <= |s|
    decreases |s|
  {
    if |s| > 0 {
      FilterShrinks(s[1..], keep);
    }
  }
}
