/** What the sliding-window blur is meant to compute: means over windows whose
    coordinates are clamped to the edge of the picture. */
module BlurSpec {

  /** A picture plane as rows of real samples. */
  type Matrix = seq<seq<real>>

  /** Rows of one width. */
  ghost predicate Rect<T>(m: seq<seq<T>>, w: nat) {
    forall i :: 0 <= i < |m| ==> |m[i]| == w
  }

  function Clamp(k: int, n: nat): (c: nat)
    requires n > 0
    ensures c < n
  {
    if k < 0 then 0 else if k >= n then n - 1 else k
  }

  function Scale(x: real, k: real): real {
    x * k
  }

  /** Sum of the edge-clamped samples at coordinates lo, .., hi - 1. */
  ghost function ClampSum(line: seq<real>, lo: int, hi: int): real
    requires |line| > 0 && lo <= hi
    decreases hi - lo
  {
    if lo == hi then 0.0 else ClampSum(line, lo, hi - 1) + line[Clamp(hi - 1, |line|)]
  }

  /** Sum of the edge-clamped samples of the block [ilo, ihi) x [jlo, jhi). */
  ghost function BlockSum(m: Matrix, ilo: int, ihi: int, jlo: int, jhi: int): real
    requires |m| > 0 && ilo <= ihi && jlo <= jhi
    requires forall i :: 0 <= i < |m| ==> |m[i]| > 0
    decreases ihi - ilo
  {
    if ilo == ihi then 0.0
    else BlockSum(m, ilo, ihi - 1, jlo, jhi) + ClampSum(m[Clamp(ihi - 1, |m|)], jlo, jhi)
  }

  /** The number of samples in a window of radius r. */
  ghost function Width(r: nat): real {
    (r + r + 1) as real
  }

  ghost function WindowSum(line: seq<real>, j: int, r: nat): real
    requires |line| > 0
  {
    ClampSum(line, j - r, j + r + 1)
  }

  ghost function LineMean(line: seq<real>, j: int, r: nat): real
    requires |line| > 0
  {
    WindowSum(line, j, r) / Width(r)
  }

  /** The mean of the (2r+1) x (2r+1) window around (i, j). */
  ghost function BoxMean(m: Matrix, i: int, j: int, r: nat): real
    requires |m| > 0
    requires forall i :: 0 <= i < |m| ==> |m[i]| > 0
  {
    BlockSum(m, i - r, i + r + 1, j - r, j + r + 1) / (Width(r) * Width(r))
  }

  ghost function Column(m: Matrix, w: nat, j: nat): (c: seq<real>)
    requires Rect(m, w) && j < w
    ensures |c| == |m| && forall i :: 0 <= i < |m| ==> c[i] == m[i][j]
  {
    seq(|m|, i requires 0 <= i < |m| => m[i][j])
  }

  /** One horizontal pass: every sample becomes the mean of its row window. */
  ghost function RowBlur(m: Matrix, w: nat, r: nat): (b: Matrix)
    requires Rect(m, w)
    ensures |b| == |m| && Rect(b, w)
    ensures forall i, j :: 0 <= i < |m| && 0 <= j < w ==> b[i][j] == LineMean(m[i], j, r)
  {
    seq(|m|, i requires 0 <= i < |m| => seq(w, j requires 0 <= j < w => LineMean(m[i], j, r)))
  }

  /** One vertical pass: every sample becomes the mean of its column window. */
  ghost function ColBlur(m: Matrix, w: nat, r: nat): (b: Matrix)
    requires Rect(m, w)
    ensures |b| == |m| && Rect(b, w)
    ensures forall i, j :: 0 <= i < |m| && 0 <= j < w ==> b[i][j] == LineMean(Column(m, w, j), i, r)
  {
    seq(|m|, i requires 0 <= i < |m| =>
      seq(w, j requires 0 <= j < w => LineMean(Column(m, w, j), i, r)))
  }

  /** The two-dimensional box blur, written as the definition of the result only. */
  ghost function BoxBlurred(m: Matrix, w: nat, r: nat): (b: Matrix)
    requires Rect(m, w)
    ensures |b| == |m| && Rect(b, w)
    ensures forall i, j {:trigger b[i][j]} :: 0 <= i < |m| && 0 <= j < w ==> b[i][j] == BoxMean(m, i, j, r)
  {
    seq(|m|, i requires 0 <= i < |m| =>
      seq(w, j requires 0 <= j < w => BoxMean(m, i, j, r)))
  }

  // ----- sums over windows

  lemma ClampSumHead(line: seq<real>, lo: int, hi: int)
    requires |line| > 0 && lo < hi
    ensures ClampSum(line, lo, hi) == line[Clamp(lo, |line|)] + ClampSum(line, lo + 1, hi)
    decreases hi - lo
  {
    if lo + 1 < hi {
      ClampSumHead(line, lo, hi - 1);
    }
  }

  /** Moving a window one step adds the sample that enters and removes the one that leaves. */
  lemma Slide(line: seq<real>, lo: int, hi: int)
    requires |line| > 0 && lo < hi
    ensures ClampSum(line, lo + 1, hi + 1)
         == ClampSum(line, lo, hi) + line[Clamp(hi, |line|)] - line[Clamp(lo, |line|)]
  {
    ClampSumHead(line, lo, hi);
  }

  /** What the window of radius r at j holds, in numbers: the sample itself for radius 0, and with each step
      of the radius one more sample on either side, those beyond the ends being the first and the last;
      the mean divides its sum by 2r + 1. */
  lemma WindowIs(line: seq<real>, j: nat, r: nat)
    requires j < |line|
    ensures WindowSum(line, j, 0) == line[j]
    ensures WindowSum(line, j, r + 1) == WindowSum(line, j, r)
      + (if j < r + 1 then line[0] else line[j - r - 1])
      + (if j + r + 1 >= |line| then line[|line| - 1] else line[j + r + 1])
    ensures LineMean(line, j, r) == WindowSum(line, j, r) / (2 * r + 1) as real
  {
    assert ClampSum(line, j, j) == 0.0;
    ClampSumHead(line, j - r - 1, j + r + 2);
    assert ClampSum(line, j - r, j + r + 2) == ClampSum(line, j - r, j + r + 1) + line[Clamp(j + r + 1, |line|)];
  }

  /** Left of the line every clamped sample is the first one. */
  lemma ClampSumLeft(line: seq<real>, n: nat)
    requires |line| > 0
    ensures ClampSum(line, 0 - n, 0) == Scale(n as real, line[0])
  {
    if n > 0 {
      ClampSumLeft(line, n - 1);
      ClampSumHead(line, 0 - n, 0);
      Distribute((n - 1) as real, line[0]);
      assert n as real == (n - 1) as real + 1.0;
    }
  }

  lemma Distribute(p: real, x: real)
    ensures Scale(p + 1.0, x) == Scale(p, x) + x
  {
  }

  // ----- separability

  lemma RowMeansSum(m: Matrix, w: nat, r: nat, j: nat, ilo: int, ihi: int)
    requires Rect(m, w) && |m| > 0 && j < w && ilo <= ihi
    ensures ClampSum(Column(RowBlur(m, w, r), w, j), ilo, ihi)
         == BlockSum(m, ilo, ihi, j - r, j + r + 1) / Width(r)
    decreases ihi - ilo
  {
    if ilo < ihi {
      RowMeansSum(m, w, r, j, ilo, ihi - 1);
      DivAdd(BlockSum(m, ilo, ihi - 1, j - r, j + r + 1),
             ClampSum(m[Clamp(ihi - 1, |m|)], j - r, j + r + 1), Width(r));
    }
  }

  lemma DivAdd(x: real, y: real, d: real)
    requires d > 0.0
    ensures (x + y) / d == x / d + y / d
  {
    assert (x / d + y / d) * d == x / d * d + y / d * d == x + y;
  }

  lemma DivDiv(x: real, d: real)
    requires d > 0.0
    ensures x / d / d == x / (d * d)
  {
    NestedQuotient(x / d / d, x / d, d, x, d * d);
  }

  lemma NestedQuotient(q: real, p: real, d: real, x: real, e: real)
    requires d > 0.0 && q * d == p && p * d == x && e == d * d
    ensures e > 0.0 && q == x / e
  {
    SquarePositive(d, e);
    calc {
      q * e;
      (q * d) * d;
      x;
    }
    Quotient(q, e, x);
  }

  lemma SquarePositive(d: real, e: real)
    requires d > 0.0 && e == d * d
    ensures e > 0.0
  {
    assert e / d == d;
  }

  lemma Quotient(q: real, d: real, x: real)
    requires d > 0.0 && q * d == x
    ensures q == x / d
  {
  }

  lemma SeparableAt(m: Matrix, w: nat, r: nat, i: nat, j: nat)
    requires Rect(m, w) && i < |m| && j < w
    ensures LineMean(Column(RowBlur(m, w, r), w, j), i, r) == BoxMean(m, i, j, r)
  {
    RowMeansSum(m, w, r, j, i - r, i + r + 1);
    DivDiv(BlockSum(m, i - r, i + r + 1, j - r, j + r + 1), Width(r));
  }

  /** Separability: a horizontal pass followed by a vertical one is the two-dimensional box mean. */
  lemma Separable(m: Matrix, w: nat, r: nat)
    requires Rect(m, w)
    ensures ColBlur(RowBlur(m, w, r), w, r) == BoxBlurred(m, w, r)
  {
    var a, b := ColBlur(RowBlur(m, w, r), w, r), BoxBlurred(m, w, r);
    forall i | 0 <= i < |m| ensures a[i] == b[i] {
      forall j | 0 <= j < w ensures a[i][j] == b[i][j] {
        SeparableAt(m, w, r, i, j);
      }
    }
  }

  // ----- range preservation

  ghost predicate InRange(m: Matrix, lo: real, hi: real) {
    forall i, j :: 0 <= i < |m| && 0 <= j < |m[i]| ==> lo <= m[i][j] <= hi
  }

  lemma ClampSumRange(line: seq<real>, a: int, b: int, lo: real, hi: real)
    requires |line| > 0 && a <= b
    requires forall k :: 0 <= k < |line| ==> lo <= line[k] <= hi
    ensures (b - a) as real * lo <= ClampSum(line, a, b) <= (b - a) as real * hi
    decreases b - a
  {
    if a < b {
      ClampSumRange(line, a, b - 1, lo, hi);
      var n := (b - 1 - a) as real;
      assert (b - a) as real == n + 1.0;
    }
  }

  lemma LineMeanRange(line: seq<real>, j: int, r: nat, lo: real, hi: real)
    requires |line| > 0
    requires forall k :: 0 <= k < |line| ==> lo <= line[k] <= hi
    ensures lo <= LineMean(line, j, r) <= hi
  {
    ClampSumRange(line, j - r, j + r + 1, lo, hi);
    var s, d := ClampSum(line, j - r, j + r + 1), Width(r);
    assert (j + r + 1 - (j - r)) as real == d;
    QuotientRange(s, d, lo, hi);
  }

  lemma QuotientRange(s: real, d: real, lo: real, hi: real)
    requires d > 0.0 && d * lo <= s <= d * hi
    ensures lo <= s / d <= hi
  {
    assert s / d * d == s;
    assert (s / d - lo) * d >= 0.0;
    assert (hi - s / d) * d >= 0.0;
  }

  /** Averaging never leaves the range of the samples. */
  lemma BoxBlurredRange(m: Matrix, w: nat, r: nat, lo: real, hi: real)
    requires Rect(m, w) && InRange(m, lo, hi)
    ensures InRange(BoxBlurred(m, w, r), lo, hi)
  {
    Separable(m, w, r);
    var rows := RowBlur(m, w, r);
    forall i, j | 0 <= i < |m| && 0 <= j < w ensures lo <= rows[i][j] <= hi {
      LineMeanRange(m[i], j, r, lo, hi);
    }
    var b := ColBlur(rows, w, r);
    forall i, j | 0 <= i < |m| && 0 <= j < w ensures lo <= b[i][j] <= hi {
      LineMeanRange(Column(rows, w, j), i, r, lo, hi);
    }
  }

  /** Three box passes, first radius first. */
  /** b is the picture of the means over the windows of radius r in m. */
  ghost predicate Means(m: Matrix, w: nat, r: int, b: Matrix) {
    && r >= 0 && Rect(m, w) && Rect(b, w) && |b| == |m|
    && forall i, j {:trigger b[i][j]} :: 0 <= i < |m| && 0 <= j < w ==> b[i][j] == BoxMean(m, i, j, r)
  }

  lemma BoxBlurredIsMeans(m: Matrix, w: nat, r: nat)
    requires Rect(m, w)
    ensures Means(m, w, r, BoxBlurred(m, w, r))
  {
  }

  /** Three passes: means over the third radius of means over the second of means over the first. */
  lemma ThreeBoxesAre(m: Matrix, w: nat, r0: nat, r1: nat, r2: nat) returns (p: Matrix, q: Matrix)
    requires Rect(m, w)
    ensures Means(m, w, r0, p) && Means(p, w, r1, q) && Means(q, w, r2, ThreeBoxes(m, w, r0, r1, r2))
  {
    hide BoxBlurred, Means;
    p := BoxBlurred(m, w, r0);
    q := BoxBlurred(p, w, r1);
    BoxBlurredIsMeans(m, w, r0);
    BoxBlurredIsMeans(p, w, r1);
    BoxBlurredIsMeans(q, w, r2);
  }

  ghost function ThreeBoxes(m: Matrix, w: nat, r0: nat, r1: nat, r2: nat): (b: Matrix)
    requires Rect(m, w)
    ensures |b| == |m| && Rect(b, w)
  {
    BoxBlurred(BoxBlurred(BoxBlurred(m, w, r0), w, r1), w, r2)
  }

  lemma ThreeBoxesRange(m: Matrix, w: nat, r0: nat, r1: nat, r2: nat, lo: real, hi: real)
    requires Rect(m, w) && InRange(m, lo, hi)
    ensures InRange(ThreeBoxes(m, w, r0, r1, r2), lo, hi)
  {
    BoxBlurredRange(m, w, r0, lo, hi);
    BoxBlurredRange(BoxBlurred(m, w, r0), w, r1, lo, hi);
    BoxBlurredRange(BoxBlurred(BoxBlurred(m, w, r0), w, r1), w, r2, lo, hi);
  }
}
