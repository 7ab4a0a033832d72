/**
 * The BM25 formulas of the vectorizer over exact reals: the saturating
 * term frequency of `transform` and the argument of the logarithm in the
 * inverse document frequency of `fit`.
 */
module Bm25 {

  // ---------------------------------------------------------------------
  // Facts of ordered-field arithmetic the solver needs spelled out
  // ---------------------------------------------------------------------

  lemma MulPos(x: real, y: real)
    requires x > 0.0 && y > 0.0
    ensures x * y > 0.0
  {
  }

  lemma MulNonneg(x: real, y: real)
    requires x >= 0.0 && y >= 0.0
    ensures x * y >= 0.0
  {
  }

  lemma MulLess(a: real, b: real, m: real)
    requires a < b && m > 0.0
    ensures a * m < b * m
  {
    MulPos(b - a, m);
  }

  lemma MulAtMost(a: real, b: real, m: real)
    requires a <= b && m >= 0.0
    ensures a * m <= b * m
  {
    MulNonneg(b - a, m);
  }

  lemma DivMul(x: real, y: real)
    requires y != 0.0
    ensures (x / y) * y == x
  {
  }

  /** x / y < z when x < z * y and y > 0 (and the same for <=). */
  lemma DivBelow(x: real, y: real, z: real)
    requires y > 0.0
    ensures x < z * y ==> x / y < z
    ensures x <= z * y ==> x / y <= z
  {
    DivMul(x, y);
    var q := x / y;
    if z <= q { MulAtMost(z, q, y); }
    if z < q { MulLess(z, q, y); }
  }

  lemma DivPos(x: real, y: real)
    requires x > 0.0 && y > 0.0
    ensures x / y > 0.0
  {
    DivMul(x, y);
    if x / y <= 0.0 { MulAtMost(x / y, 0.0, y); }
  }

  /** a / b < x / y when a * y < x * b, for positive denominators. */
  lemma FracLess(a: real, b: real, x: real, y: real)
    requires b > 0.0 && y > 0.0 && a * y < x * b
    ensures a / b < x / y
  {
    var p, q := a / b, x / y;
    DivMul(a, b);
    DivMul(x, y);
    MulPos(b, y);
    assert a * y == p * (b * y);
    assert x * b == q * (b * y);
    if q <= p { MulAtMost(q, p, b * y); }
  }

  lemma SquareNonneg(x: real)
    ensures x * x >= 0.0
  {
  }

  /** `1 - b + b * doc_length / avg_doc_length` */
  function LengthNorm(docLen: nat, avgLen: real, b: real): real
    requires avgLen > 0.0
  {
    1.0 - b + b * (docLen as real) / avgLen
  }

  lemma LengthNormPositive(docLen: nat, avgLen: real, b: real)
    requires avgLen > 0.0 && docLen >= 1 && 0.0 <= b <= 1.0
    ensures LengthNorm(docLen, avgLen, b) > 0.0
  {
    assert (docLen as real) / avgLen > 0.0;
    assert b * (docLen as real) / avgLen == b * ((docLen as real) / avgLen);
    if b < 1.0 {
      assert b * ((docLen as real) / avgLen) >= 0.0;
    } else {
      assert b * ((docLen as real) / avgLen) == (docLen as real) / avgLen;
    }
  }

  /** `x * (k1 + 1) / (x + K)`: the saturating curve of BM25 at x occurrences, K being k1 times the length norm. */
  function Saturate(x: real, K: real, k1: real): real
    requires x > 0.0 && K >= 0.0
  {
    x * (k1 + 1.0) / (x + K)
  }

  lemma SaturateBounds(x: real, K: real, k1: real)
    requires x > 0.0 && K >= 0.0 && k1 >= 0.0
    ensures 0.0 < Saturate(x, K, k1) <= k1 + 1.0
    ensures K > 0.0 ==> Saturate(x, K, k1) < k1 + 1.0
  {
    var den := x + K;
    MulPos(x, k1 + 1.0);
    DivPos(x * (k1 + 1.0), den);
    MulAtMost(x, den, k1 + 1.0);
    DivBelow(x * (k1 + 1.0), den, k1 + 1.0);
    if K > 0.0 {
      MulLess(x, den, k1 + 1.0);
      DivBelow(x * (k1 + 1.0), den, k1 + 1.0);
    }
  }

  lemma SaturateIncreasing(x1: real, x2: real, K: real, k1: real)
    requires 0.0 < x1 < x2 && K > 0.0 && k1 >= 0.0
    ensures Saturate(x1, K, k1) < Saturate(x2, K, k1)
  {
    var m := k1 + 1.0;
    // x1 * (x2 + K) < x2 * (x1 + K), because x1 * K < x2 * K
    MulLess(x1, x2, K);
    assert x1 * (x2 + K) < x2 * (x1 + K);
    MulLess(x1 * (x2 + K), x2 * (x1 + K), m);
    assert (x1 * m) * (x2 + K) < (x2 * m) * (x1 + K);
    FracLess(x1 * m, x1 + K, x2 * m, x2 + K);
  }

  /**
   * The BM25 term frequency of a feature seen `count` times in a document of
   * `docLen` features. It is positive and never exceeds k1 + 1, and stays
   * strictly below it when k1 > 0.
   */
  function TermFrequency(count: nat, docLen: nat, avgLen: real, k1: real, b: real): (tf: real)
    requires 1 <= count <= docLen && avgLen > 0.0 && k1 >= 0.0 && 0.0 <= b <= 1.0
    ensures 0.0 < tf <= k1 + 1.0
    ensures k1 > 0.0 ==> tf < k1 + 1.0
  {
    var norm := LengthNorm(docLen, avgLen, b);
    LengthNormPositive(docLen, avgLen, b);
    MulNonneg(k1, norm);
    assert k1 > 0.0 ==> k1 * norm > 0.0 by {
      if k1 > 0.0 { MulPos(k1, norm); }
    }
    SaturateBounds(count as real, k1 * norm, k1);
    Saturate(count as real, k1 * norm, k1)
  }

  /** For a fixed document length, more occurrences give a strictly larger term frequency when k1 > 0. */
  lemma TermFrequencyIncreasing(c1: nat, c2: nat, docLen: nat, avgLen: real, k1: real, b: real)
    requires 1 <= c1 < c2 <= docLen && avgLen > 0.0 && k1 > 0.0 && 0.0 <= b <= 1.0
    ensures TermFrequency(c1, docLen, avgLen, k1, b) < TermFrequency(c2, docLen, avgLen, k1, b)
  {
    var norm := LengthNorm(docLen, avgLen, b);
    LengthNormPositive(docLen, avgLen, b);
    MulPos(k1, norm);
    var K := k1 * norm;
    SaturateIncreasing(c1 as real, c2 as real, K, k1);
    assert TermFrequency(c1, docLen, avgLen, k1, b) == Saturate(c1 as real, K, k1);
    assert TermFrequency(c2, docLen, avgLen, k1, b) == Saturate(c2 as real, K, k1);
  }

  /** `(num_docs - count + 0.5) / (count + 0.5) + 1.0`, the argument of the logarithm in the IDF. */
  function IdfArgument(numDocs: nat, docFreq: nat): (arg: real)
    ensures arg > 0.0
    ensures arg > 1.0 <==> docFreq <= numDocs
  {
    var n, df := numDocs as real, docFreq as real;
    var arg := (n - df + 0.5) / (df + 0.5) + 1.0;
    DivMul(n - df + 0.5, df + 0.5);
    DivMul(n + 1.0, df + 0.5);
    assert arg * (df + 0.5) == n + 1.0;
    assert arg == (n + 1.0) / (df + 0.5);
    DivPos(n + 1.0, df + 0.5);
    DivBelow(n + 1.0, df + 0.5, 1.0);
    assert n + 1.0 > df + 0.5 ==> arg > 1.0 by {
      if n + 1.0 > df + 0.5 {
        FracLess(df + 0.5, df + 0.5, n + 1.0, df + 0.5);
        assert (df + 0.5) / (df + 0.5) == 1.0;
      }
    }
    arg
  }

  /** The IDF argument is (N + 1) / (df + 0.5). */
  lemma IdfArgumentForm(numDocs: nat, docFreq: nat)
    ensures IdfArgument(numDocs, docFreq) == (numDocs as real + 1.0) / (docFreq as real + 0.5)
  {
    var n, e := numDocs as real, docFreq as real + 0.5;
    var arg, q := IdfArgument(numDocs, docFreq), (n + 1.0) / e;
    DivMul(n - docFreq as real + 0.5, e);
    DivMul(n + 1.0, e);
    assert arg == (n - docFreq as real + 0.5) / e + 1.0;
    assert arg * e == n + 1.0;
    if arg < q { MulLess(arg, q, e); }
    if q < arg { MulLess(q, arg, e); }
  }

  /** The IDF argument strictly decreases as the document frequency grows. */
  lemma IdfArgumentDecreasing(numDocs: nat, df1: nat, df2: nat)
    requires df1 < df2
    ensures IdfArgument(numDocs, df1) > IdfArgument(numDocs, df2)
  {
    var n := numDocs as real;
    var e1, e2 := df1 as real + 0.5, df2 as real + 0.5;
    IdfArgumentForm(numDocs, df1);
    IdfArgumentForm(numDocs, df2);
    MulLess(e1, e2, n + 1.0);
    assert (n + 1.0) * e1 < (n + 1.0) * e2 by {
      assert (n + 1.0) * e1 == e1 * (n + 1.0);
      assert (n + 1.0) * e2 == e2 * (n + 1.0);
    }
    FracLess(n + 1.0, e2, n + 1.0, e1);
  }

  // ---------------------------------------------------------------------
  // Sums, means and L2 normalisation of rows
  // ---------------------------------------------------------------------

  function Sum(s: seq<real>): real {
    if s == [] then 0.0 else s[0] + Sum(s[1..])
  }

  /** `np.mean` */
  function Mean(s: seq<real>): real
    requires |s| > 0
  {
    Sum(s) / (|s| as real)
  }

  lemma {:induction false} SumBounds(s: seq<real>, lo: real, hi: real)
    requires forall i :: 0 <= i < |s| ==> lo <= s[i] <= hi
    ensures (|s| as real) * lo <= Sum(s) <= (|s| as real) * hi
    decreases |s|
  {
    if s != [] {
      SumBounds(s[1..], lo, hi);
    }
  }

  /** The mean of entries in [lo, hi] lies in [lo, hi]. */
  lemma MeanBounds(s: seq<real>, lo: real, hi: real)
    requires |s| > 0
    requires forall i :: 0 <= i < |s| ==> lo <= s[i] <= hi
    ensures lo <= Mean(s) <= hi
  {
    SumBounds(s, lo, hi);
    var n := |s| as real;
    assert Mean(s) * n == Sum(s);
  }

  /** The sum of the squares of a row's entries (`np.linalg.norm` squared). */
  function SumSquares(s: seq<real>): (r: real)
    ensures r >= 0.0
  {
    if s == [] then 0.0
    else
      SquareNonneg(s[0]);
      s[0] * s[0] + SumSquares(s[1..])
  }

  /** The divisor `transform` uses for a row: its L2 norm, or 1 when that norm is 0. */
  function NormDivisor(s: seq<real>, sqrt: real -> real): (d: real)
    ensures d != 0.0
  {
    var norm := sqrt(SumSquares(s));
    if norm == 0.0 then 1.0 else norm
  }

  /**
   * `vectors / norms[:, np.newaxis]` for one row, the square root being a
   * parameter. The result is the row scaled by one non-zero factor, so its
   * zero entries are exactly those of the row.
   */
  function Normalize(s: seq<real>, sqrt: real -> real): (r: seq<real>)
    ensures |r| == |s|
    ensures forall i :: 0 <= i < |s| ==> r[i] * NormDivisor(s, sqrt) == s[i]
    ensures forall i :: 0 <= i < |s| ==> (r[i] == 0.0 <==> s[i] == 0.0)
  {
    var d := NormDivisor(s, sqrt);
    seq(|s|, i requires 0 <= i < |s| => s[i] / d)
  }
}
