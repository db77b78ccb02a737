/**
 Generic sequence helpers: concatenation of a sequence of sequences (Python's
 `''.join` and numpy's row-major `flatten`) and where an element of a
 rectangular grid lands once the grid is concatenated.
 */
module Seqs {

  /** The concatenation, in order, of every sequence in `xss`. */
  function Concat<T>(xss: seq<seq<T>>): seq<T>
  {
    if xss == [] then [] else xss[0] + Concat(xss[1..])
  }

  /** Every sequence of `xss` has length `m`. */
  predicate Rectangular<T>(xss: seq<seq<T>>, m: nat)
  {
    forall k :: 0 <= k < |xss| ==> |xss[k]| == m
  }

  /** Concatenating `n` rows of width `m` gives `n * m` elements. */
  lemma {:induction false} ConcatGridLength<T>(xss: seq<seq<T>>, m: nat)
    requires Rectangular(xss, m)
    ensures |Concat(xss)| == |xss| * m
  {
    if xss != [] {
      ConcatGridLength(xss[1..], m);
      MulPred(|xss|, m);
    }
  }

  /** `i * m` unfolds one row at a time. */
  lemma MulPred(i: nat, m: nat)
    requires i > 0
    ensures i * m == (i - 1) * m + m
  {}

  /** Position `(i, j)` of an `n` by `m` grid lies inside its `n * m` cells. */
  lemma RowMajorBound(i: nat, j: nat, m: nat, n: nat)
    requires i < n && j < m
    ensures i * m + j < n * m
  {
    MulPred(n, m);
    if i < n - 1 {
      RowMajorBound(i, j, m, n - 1);
    }
  }

  /**
   Row-major layout: in the concatenation of a grid of width `m`, the element
   of row `i` and column `j` sits at position `i * m + j`.
   */
  lemma {:induction false} ConcatGridAt<T>(xss: seq<seq<T>>, m: nat, i: nat, j: nat)
    requires Rectangular(xss, m)
    requires i < |xss| && j < m
    ensures |Concat(xss)| == |xss| * m
    ensures i * m + j < |Concat(xss)| && Concat(xss)[i * m + j] == xss[i][j]
  {
    ConcatGridLength(xss, m);
    RowMajorBound(i, j, m, |xss|);
    var head, tail := xss[0], Concat(xss[1..]);
    assert Concat(xss) == head + tail;
    if i == 0 {
      assert 0 * m + j == j;
    } else {
      var k := (i - 1) * m + j;
      MulPred(i, m);
      assert i * m + j == |head| + k;
      ConcatGridAt(xss[1..], m, i - 1, j);
      assert tail[k] == xss[i][j];
    }
  }

  /** Every element of a concatenation comes from one of its pieces. */
  lemma {:induction false} ConcatMember<T>(xss: seq<seq<T>>, x: T)
    requires x in Concat(xss)
    ensures exists k :: 0 <= k < |xss| && x in xss[k]
  {
    if x !in xss[0] {
      ConcatMember(xss[1..], x);
      var k :| 0 <= k < |xss[1..]| && x in xss[1..][k];
      assert x in xss[k + 1];
    }
  }

  /** Concatenation distributes over `+`. */
  lemma {:induction false} ConcatAppend<T>(xss: seq<seq<T>>, yss: seq<seq<T>>)
    ensures Concat(xss + yss) == Concat(xss) + Concat(yss)
  {
    if xss == [] {
      assert xss + yss == yss;
    } else {
      assert (xss + yss)[1..] == xss[1..] + yss;
      ConcatAppend(xss[1..], yss);
    }
  }

  /** Concatenation is associative. */
  lemma Assoc<T>(x: seq<T>, y: seq<T>, z: seq<T>)
    ensures x + (y + z) == (x + y) + z
  {
  }

  /** Slicing inside the left operand of a concatenation. */
  lemma SliceLeft<T>(x: seq<T>, y: seq<T>, n: nat)
    requires n <= |x|
    ensures (x + y)[..n] == x[..n]
    ensures (x + y)[n..] == x[n..] + y
  {
  }

  /** Cutting a sequence at `n` and gluing the halves gives it back. */
  lemma SliceJoin<T>(s: seq<T>, n: nat)
    requires n <= |s|
    ensures s[..n] + s[n..] == s
  {
  }

  /** Position of the first occurrence of `x` in `xs`. */
  function IndexOf<T(==)>(xs: seq<T>, x: T): (r: nat)
    requires x in xs
    ensures r < |xs| && xs[r] == x
    ensures forall k :: 0 <= k < r ==> xs[k] != x
  {
    if xs[0] == x then 0 else 1 + IndexOf(xs[1..], x)
  }

  /** No element of `xs` occurs twice. */
  predicate Distinct<T(==)>(xs: seq<T>)
  {
    forall a, b :: 0 <= a < b < |xs| ==> xs[a] != xs[b]
  }
}
