/** Aggregation of the encodings of one enrollment: a single encoding is kept
    as it is, several are replaced by their element-wise mean
    (`np.mean(encodings, axis=0)`). Reals stand for the floats. */
module Aggregation {

  /** Length of a face encoding produced by the encoder. */
  const EncodingDim: nat := 128

  type Encoding = e: seq<real> | |e| == EncodingDim witness seq(EncodingDim, _ => 0.0)

  /** Sum of component `j` over all encodings. */
  function ColumnSum(es: seq<Encoding>, j: nat): real
    requires j < EncodingDim
  {
    if es == [] then 0.0 else es[0][j] + ColumnSum(es[1..], j)
  }

  /** The element-wise mean. */
  function Mean(es: seq<Encoding>): Encoding
    requires |es| > 0
  {
    seq(EncodingDim, j requires 0 <= j < EncodingDim => ColumnSum(es, j) / |es| as real)
  }

  /** `encodings[0]` when there is one, the mean otherwise. */
  function Aggregate(es: seq<Encoding>): Encoding
    requires |es| > 0
  {
    if |es| == 1 then es[0] else Mean(es)
  }

  lemma {:induction false} ColumnSumOfCopies(e: Encoding, n: nat, j: nat)
    requires j < EncodingDim
    ensures ColumnSum(seq(n, _ => e), j) == n as real * e[j]
  {
    if n > 0 {
      var copies := seq(n, _ => e);
      assert copies != [] && copies[0] == e;
      assert copies[1..] == seq(n - 1, _ => e);
      ColumnSumOfCopies(e, n - 1, j);
      assert ColumnSum(copies, j) == copies[0][j] + ColumnSum(copies[1..], j);
    }
  }

  /** The mean of copies of one encoding is that encoding; in particular
      `Mean([e]) == e`. */
  lemma MeanOfCopies(e: Encoding, n: nat)
    requires n > 0
    ensures Mean(seq(n, _ => e)) == e
  {
    forall j | 0 <= j < EncodingDim ensures Mean(seq(n, _ => e))[j] == e[j] {
      ColumnSumOfCopies(e, n, j);
    }
  }

  /** Keeping a single encoding unchanged is what the mean would give too, so
      the stored encoding is always the mean of the extracted ones. */
  lemma AggregateIsMean(es: seq<Encoding>)
    requires |es| > 0
    ensures Aggregate(es) == Mean(es)
  {
    if |es| == 1 {
      assert es == seq(1, _ => es[0]);
      MeanOfCopies(es[0], 1);
    }
  }

  lemma {:induction false} ColumnSumRemove(es: seq<Encoding>, k: nat, j: nat)
    requires k < |es| && j < EncodingDim
    ensures ColumnSum(es, j) == es[k][j] + ColumnSum(es[..k] + es[k + 1..], j)
  {
    if k == 0 {
      assert es[..0] + es[1..] == es[1..];
    } else {
      ColumnSumRemove(es[1..], k - 1, j);
      assert es[1..][..k - 1] + es[1..][k..] == (es[..k] + es[k + 1..])[1..];
    }
  }

  lemma MultisetRemove<T>(s: seq<T>, k: nat)
    requires k < |s|
    ensures multiset(s[..k] + s[k + 1..]) == multiset(s) - multiset{s[k]}
  {
    assert s == s[..k] + [s[k]] + s[k + 1..];
  }

  lemma {:induction false} ColumnSumPermutation(a: seq<Encoding>, b: seq<Encoding>, j: nat)
    requires multiset(a) == multiset(b) && j < EncodingDim
    ensures ColumnSum(a, j) == ColumnSum(b, j)
    decreases |a|
  {
    if a == [] {
      assert |b| == |multiset(b)| == 0;
    } else {
      assert a[0] in multiset(b);
      var k :| 0 <= k < |b| && b[k] == a[0];
      var rest := b[..k] + b[k + 1..];
      MultisetRemove(b, k);
      assert a == [a[0]] + a[1..];
      assert multiset(a[1..]) == multiset(a) - multiset{a[0]};
      ColumnSumRemove(b, k, j);
      ColumnSumPermutation(a[1..], rest, j);
    }
  }

  /** The mean does not depend on the order of the encodings. */
  lemma MeanOrderInvariant(a: seq<Encoding>, b: seq<Encoding>)
    requires |a| > 0 && multiset(a) == multiset(b)
    ensures |b| == |a| && Mean(a) == Mean(b)
  {
    assert |a| == |multiset(a)| == |multiset(b)| == |b|;
    forall j | 0 <= j < EncodingDim ensures Mean(a)[j] == Mean(b)[j] {
      ColumnSumPermutation(a, b, j);
    }
  }

  lemma {:induction false} ColumnSumBounds(es: seq<Encoding>, j: nat, lo: real, hi: real)
    requires j < EncodingDim
    requires forall i :: 0 <= i < |es| ==> lo <= es[i][j] <= hi
    ensures |es| as real * lo <= ColumnSum(es, j) <= |es| as real * hi
  {
    if es != [] {
      ColumnSumBounds(es[1..], j, lo, hi);
    }
  }

  /** Each component of the mean lies between the smallest and the largest
      value of that component among the encodings. */
  lemma MeanWithinBounds(es: seq<Encoding>, j: nat, lo: real, hi: real)
    requires |es| > 0 && j < EncodingDim
    requires forall i :: 0 <= i < |es| ==> lo <= es[i][j] <= hi
    ensures lo <= Mean(es)[j] <= hi
  {
    ColumnSumBounds(es, j, lo, hi);
    var n := |es| as real;
    var s := ColumnSum(es, j);
    assert Mean(es)[j] == s / n;
    assert lo == (n * lo) / n;
    assert hi == (n * hi) / n;
  }
}
