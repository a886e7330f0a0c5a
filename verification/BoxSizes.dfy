/** The choice of box radii whose total variance approximates that of a Gaussian. */
module BoxSizes {

  // ----- the C++ library functions used, over exact reals

  /** floor(sqrt(n)) for a whole number. */
  function IntSqrt(n: nat): (k: nat)
    ensures n > 0 ==> k > 0
  {
    if n == 0 then 0
    else
      var k := IntSqrt(n - 1);
      if (k + 1) * (k + 1) <= n then k + 1 else k
  }

  /** Rounding to the nearest whole number, halves away from zero. */
  function Round(x: real): (m: int)
    ensures -0.5 <= x - m as real <= 0.5
    ensures x >= 0.0 ==> x - m as real != 0.5
    ensures x < 0.0 ==> x - m as real != -0.5
  {
    if x >= 0.0 then (x + 0.5).Floor else -(-x + 0.5).Floor
  }

  /** Division by two toward zero. */
  function Half(x: int): (h: int)
    ensures x >= 0 ==> h >= 0
  {
    if x >= 0 then x / 2 else -(-x / 2)
  }

  // ----- the quantities of the algorithm, in terms of y = 12 * sigma^2

  function Target(sigma: real): (y: real)
    ensures y >= 0.0
  {
    assert sigma * sigma >= 0.0;
    12.0 * sigma * sigma
  }

  /** The ideal box width squared. */
  function IdealSquare(y: real, n: nat): (x: real)
    requires n > 0 && y >= 0.0
    ensures x >= 1.0
  {
    assert y / n as real >= 0.0;
    y / n as real + 1.0
  }

  function OddBelow(k: int): int {
    if k % 2 == 0 then k - 1 else k
  }

  /** The narrower of the two box widths. */
  function LowerWidth(y: real, n: nat): (w: int)
    requires n > 0 && y >= 0.0
    ensures w >= 1 && w % 2 == 1
  {
    OddBelow(IntSqrt(IdealSquare(y, n).Floor))
  }

  /** Twelve times the total variance of n boxes of width w + 2, written out as the source does. */
  function Full(n: real, w: real): real {
    n * w * w + 4.0 * n * w + 3.0 * n
  }

  /** How much less a box of width w contributes than one of width w + 2. */
  function Step(w: real): real {
    4.0 * w + 4.0
  }

  /** How many boxes of width w would meet the target exactly. */
  function IdealCount(y: real, n: nat, w: int): real
    requires w >= 1
  {
    (y - Full(n as real, w as real)) / -Step(w as real)
  }

  /** n radii of which the first m belong to boxes of width w and the others to width w + 2. */
  function Radii(n: nat, w: int, m: int): (b: seq<int>)
    ensures |b| == n && forall i :: 0 <= i < n ==> b[i] == Half((if i < m then w else w + 2) - 1)
  {
    seq(n, i requires 0 <= i < n => Half((if i < m then w else w + 2) - 1))
  }

  function BoxRadii(sigma: real, n: nat): (b: seq<int>)
    requires n > 0
    ensures |b| == n
  {
    var y := Target(sigma);
    var w := LowerWidth(y, n);
    Radii(n, w, Round(IdealCount(y, n, w)))
  }

  method StdToBox(boxes: array<int>, sigma: real, n: nat)
    requires 0 < n <= boxes.Length
    modifies boxes
    ensures boxes[..n] == BoxRadii(sigma, n) && boxes[n..] == old(boxes[n..])
  {
    var y := Target(sigma);
    assert IntSqrt(IdealSquare(y, n).Floor) == LowerWidth(y, n) || IntSqrt(IdealSquare(y, n).Floor) % 2 == 0;
    var wl: int := IntSqrt(IdealSquare(y, n).Floor);
    if wl % 2 == 0 {
      wl := wl - 1;
    }
    var wu := wl + 2;
    var m := Round(IdealCount(y, n, wl));
    for i := 0 to n
      invariant boxes[..i] == Radii(n, wl, m)[..i]
      invariant boxes[n..] == old(boxes[n..])
    {
      boxes[i] := Half((if i < m then wl else wu) - 1);
    }
  }

  // ----- the narrower width

  lemma Squares(a: int, b: int)
    requires 0 <= a <= b
    ensures a * a <= b * b
  {
  }

  lemma {:induction false} IntSqrtIs(n: nat)
    ensures var k := IntSqrt(n); k * k <= n < (k + 1) * (k + 1)
  {
    if n > 0 {
      IntSqrtIs(n - 1);
      var k := IntSqrt(n - 1);
      Squares(k + 1, k + 2);
    }
  }

  lemma OddRoot(s: nat, w: int)
    requires s >= 1 && w == OddBelow(IntSqrt(s))
    ensures w * w <= s < (w + 2) * (w + 2)
  {
    IntSqrtIs(s);
    var k := IntSqrt(s);
    Squares(w, k);
    Squares(k + 1, w + 2);
  }

  lemma OddRootReal(x: real, w: int)
    requires x >= 1.0 && w == OddBelow(IntSqrt(x.Floor))
    ensures w as real * w as real <= x < (w as real + 2.0) * (w as real + 2.0)
  {
    OddRoot(x.Floor, w);
    Squared(w);
    FloorBetween(x, w * w, (w + 2) * (w + 2));
  }

  lemma FloorBetween(x: real, a: int, b: int)
    requires a <= x.Floor < b
    ensures a as real <= x < b as real
  {
  }

  lemma Squared(w: int)
    ensures (w * w) as real == w as real * w as real
    ensures ((w + 2) * (w + 2)) as real == (w as real + 2.0) * (w as real + 2.0)
  {
  }

  /** The narrower width does not exceed the ideal one, and every larger odd number does. */
  lemma LowerWidthIsLargestOdd(y: real, n: nat, v: nat)
    requires n > 0 && y >= 0.0 && v % 2 == 1
    ensures v <= LowerWidth(y, n) <==> v as real * v as real <= IdealSquare(y, n)
  {
    hide IntSqrt, OddBelow, IdealSquare;
    LargestOdd(IdealSquare(y, n), LowerWidth(y, n), v);
  }

  lemma LargestOdd(x: real, w: int, v: nat)
    requires x >= 1.0 && w == OddBelow(IntSqrt(x.Floor)) && w % 2 == 1 && v % 2 == 1 && w >= 1
    ensures v <= w <==> v as real * v as real <= x
  {
    hide IntSqrt, OddBelow;
    OddRootReal(x, w);
    if v <= w {
      RealSquares(v as real, w as real);
    } else {
      RealSquares(w as real + 2.0, v as real);
    }
  }

  lemma RealSquares(a: real, b: real)
    requires 0.0 <= a <= b
    ensures a * a <= b * b
  {
    if a > 0.0 {
      Below(a, a, b);
      Below(b, a, b);
    }
  }

  // ----- total variance of a split

  ghost function SquareLessOne(d: real): real {
    d * d - 1.0
  }

  /** Twelve times the total variance of boxes with these radii: a box of width d has (d^2 - 1) / 12. */
  ghost function TotalVariance(b: seq<int>): real {
    if b == [] then 0.0 else TotalVariance(b[..|b| - 1]) + SquareLessOne((2 * b[|b| - 1] + 1) as real)
  }

  lemma HalfOdd(w: int)
    requires w >= 1 && w % 2 == 1
    ensures 2 * Half(w - 1) + 1 == w
  {
  }

  ghost function Mixed(p: int, q: int, x: real, y: real): real {
    p as real * x + q as real * y
  }

  lemma MixedStep(p: int, q: int, x: real, y: real)
    ensures Mixed(p + 1, q, x, y) == Mixed(p, q, x, y) + x
    ensures Mixed(p, q + 1, x, y) == Mixed(p, q, x, y) + y
    ensures Mixed(0, 0, x, y) == 0.0
  {
    Plus(p as real, x);
    Plus(q as real, y);
  }

  lemma Plus(p: real, x: real)
    ensures (p + 1.0) * x == p * x + x
  {
  }

  lemma {:induction false} RadiiVariance(n: nat, w: int, m: int, k: nat, x: real, y: real)
    requires w >= 1 && w % 2 == 1 && 0 <= m <= n && k <= n
    requires x == SquareLessOne(w as real) && y == SquareLessOne((w + 2) as real)
    ensures TotalVariance(Radii(n, w, m)[..k]) == Mixed(if k < m then k else m, if k < m then 0 else k - m, x, y)
  {
    var b := Radii(n, w, m);
    if k == 0 {
      assert b[..k] == [];
      MixedStep(0, 0, x, y);
    } else {
      RadiiVariance(n, w, m, k - 1, x, y);
      assert b[..k][..k - 1] == b[..k - 1];
      HalfOdd(w);
      HalfOdd(w + 2);
      if k - 1 < m {
        MixedStep(k - 1, 0, x, y);
      } else {
        MixedStep(m, k - 1 - m, x, y);
      }
    }
  }

  // ----- distance from the target, over the reals

  lemma CountEquation(y: real, full: real, d: real, c: real)
    requires d > 0.0 && c == (y - full) / -d
    ensures d * c == full - y
  {
    assert c * (-d) == y - full;
  }

  lemma Rearranged(m: real, n: real, w: real)
    ensures m * SquareLessOne(w) + (n - m) * SquareLessOne(w + 2.0) == Full(n, w) - m * Step(w)
  {
  }

  lemma Below(k: real, a: real, b: real)
    requires k > 0.0 && a <= b
    ensures k * a <= k * b
    ensures a < b ==> k * a < k * b
  {
  }

  lemma Distribute(d: real, c: real, m: real, e: real)
    requires e == c - m
    ensures d * e == d * c - m * d
  {
  }

  /** By how much the total variance of the split at m exceeds the target. */
  ghost function Error(n: nat, w: int, y: real, m: int): real {
    TotalVariance(Radii(n, w, m)) - y
  }

  lemma SplitVariance(n: nat, w: int, m: int)
    requires w >= 1 && w % 2 == 1 && 0 <= m <= n
    ensures TotalVariance(Radii(n, w, m)) == Full(n as real, w as real) - m as real * Step(w as real)
  {
    hide Full, Step, SquareLessOne, TotalVariance, Radii;
    var x, y := SquareLessOne(w as real), SquareLessOne(w as real + 2.0);
    assert (w + 2) as real == w as real + 2.0;
    RadiiVariance(n, w, m, n, x, y);
    assert Radii(n, w, m)[..n] == Radii(n, w, m);
    assert Mixed(m, n - m, x, y) == m as real * x + (n - m) as real * y;
    assert (n - m) as real == n as real - m as real;
    Rearranged(m as real, n as real, w as real);
  }

  /** How far a split is from the target, in terms of the ideal count c. */
  lemma SplitError(y: real, n: nat, w: int, m: int, full: real, d: real, c: real, e: real)
    requires w >= 1 && w % 2 == 1 && 0 <= m <= n && e == c - m as real
    requires d == Step(w as real) && full == Full(n as real, w as real) && d * c == full - y
    ensures Error(n, w, y, m) == d * e
  {
    hide Full, Step, Radii;
    SplitVariance(n, w, m);
    Distribute(d, c, m as real, e);
  }

  /** The target lies between the total variances of the two extreme splits. */
  lemma GapBounds(y: real, n: nat, w: int)
    requires n > 0 && y >= 0.0 && w == LowerWidth(y, n)
    ensures 0.0 < Full(n as real, w as real) - y <= n as real * Step(w as real)
  {
    hide Full, Step, IntSqrt, OddBelow;
    OddRootReal(IdealSquare(y, n), w);
    Spread(n as real, w as real, IdealSquare(y, n), y);
  }

  lemma ProductBounds(d: real, c: real, n: real, p: real)
    requires d > 0.0 && p == d * c && 0.0 < p <= n * d
    ensures 0.0 < c <= n
  {
    if c <= 0.0 {
      Below(d, c, 0.0);
    }
    if c > n {
      Below(d, n, c);
    }
  }

  lemma Spread(n: real, w: real, x: real, y: real)
    requires n > 0.0 && w >= 1.0 && x == y / n + 1.0
    requires w * w <= x < (w + 2.0) * (w + 2.0)
    ensures 0.0 < Full(n, w) - y <= n * Step(w)
  {
    Below(n, w * w - 1.0, x - 1.0);
    Below(n, x - 1.0, (w + 2.0) * (w + 2.0) - 1.0);
    FullIs(n, w);
  }

  lemma FullIs(n: real, w: real)
    ensures Full(n, w) - n * Step(w) == n * (w * w - 1.0)
    ensures Full(n, w) == n * ((w + 2.0) * (w + 2.0) - 1.0)
  {
  }

  // ----- the guarantee

  ghost function Abs(x: real): real {
    if x < 0.0 then -x else x
  }

  lemma Within(d: real, e: real, b: real, p: real, q: real)
    requires d > 0.0 && -b <= e <= b && p == d * e && q == d * b
    ensures -q <= p <= q
  {
    Below(d, e, b);
    Below(d, -b, e);
    assert d * (-b) == -(d * b);
  }

  lemma NearestProduct(d: real, e: real, e': real, p: real, p': real)
    requires d > 0.0 && Abs(e) <= 0.5 && Abs(e) <= Abs(e') && p == d * e && p' == d * e'
    ensures Abs(p) <= d * 0.5 && Abs(p) <= Abs(p')
  {
    Within(d, e, 0.5, p, d * 0.5);
    if e' >= 0.0 {
      Within(d, e, e', p, p');
    } else {
      Within(d, e, -e', p, -p');
    }
  }

  lemma NearestInteger(c: real, m: int, k: int)
    requires -0.5 <= c - m as real <= 0.5
    ensures Abs(c - m as real) <= Abs(c - k as real)
  {
    if k > m {
      assert k as real >= m as real + 1.0;
    } else if k < m {
      assert k as real <= m as real - 1.0;
    }
  }

  /** Nearest count, least error: a linear error makes the rounded count the best one. */
  lemma NearestIsBest(d: real, c: real, m: int, k: int, p: real, p': real)
    requires d > 0.0 && -0.5 <= c - m as real <= 0.5
    requires p == d * (c - m as real) && p' == d * (c - k as real)
    ensures Abs(p) <= d * 0.5 && Abs(p) <= Abs(p')
  {
    NearestInteger(c, m, k);
    NearestProduct(d, c - m as real, c - k as real, p, p');
  }

  /** The chosen radii split the boxes at some m: all are radii, the total variance misses the
      target by at most half a step, and no other split between the two widths misses it by less. */
  lemma StdToBoxBound(sigma: real, n: nat) returns (m: int)
    requires n > 0
    ensures 0 <= m <= n && BoxRadii(sigma, n) == Radii(n, LowerWidth(Target(sigma), n), m)
    ensures forall k :: 0 <= k <= n ==> Bound(Target(sigma), n, LowerWidth(Target(sigma), n), m, k)
  {
    hide Bound;
    var y, w := Target(sigma), LowerWidth(Target(sigma), n);
    m := Round(IdealCount(y, n, w));
    BoundAt(y, n, w, IdealCount(y, n, w), m, 0);
    forall k | 0 <= k <= n ensures Bound(y, n, w, m, k) {
      BoundAt(y, n, w, IdealCount(y, n, w), m, k);
    }
  }

  /** The split at m is near the target, and no farther from it than the split at k. */
  ghost predicate Bound(y: real, n: nat, w: int, m: int, k: int) {
    && Abs(Error(n, w, y, m)) <= 2.0 * (w + 1) as real
    && Abs(Error(n, w, y, m)) <= Abs(Error(n, w, y, k))
  }

  lemma BoundAt(y: real, n: nat, w: int, c: real, m: int, k: int)
    requires n > 0 && y >= 0.0 && w == LowerWidth(y, n) && 0 <= k <= n
    requires c == IdealCount(y, n, w) && -0.5 <= c - m as real <= 0.5
    ensures 0 <= m <= n && Bound(y, n, w, m, k)
  {
    hide Full, Step, LowerWidth, Bound;
    GapBounds(y, n, w);
    BoundFrom(y, n, w, Full(n as real, w as real), Step(w as real), c, m, k);
  }

  lemma BoundFrom(y: real, n: nat, w: int, full: real, d: real, c: real, m: int, k: int)
    requires w >= 1 && w % 2 == 1 && 0 <= k <= n && d > 0.0
    requires full == Full(n as real, w as real) && d == Step(w as real)
    requires c == (y - full) / -d && -0.5 <= c - m as real <= 0.5
    requires 0.0 < full - y <= n as real * d
    ensures 0 <= m <= n && Bound(y, n, w, m, k)
  {
    hide Full, Step, Error;
    CountEquation(y, full, d, c);
    ProductBounds(d, c, n as real, full - y);
    SplitError(y, n, w, m, full, d, c, c - m as real);
    SplitError(y, n, w, k, full, d, c, c - k as real);
    NearestIsBest(d, c, m, k, Error(n, w, y, m), Error(n, w, y, k));
    HalfStep(w);
  }

  lemma HalfStep(w: int)
    ensures Step(w as real) * 0.5 == 2.0 * (w + 1) as real
  {
  }

  /** Every radius chosen is a radius. */
  lemma BoxRadiiNonNegative(sigma: real, n: nat)
    requires n > 0
    ensures forall i :: 0 <= i < n ==> BoxRadii(sigma, n)[i] >= 0
  {
    var w := LowerWidth(Target(sigma), n);
    RadiiNonNegative(n, w, Round(IdealCount(Target(sigma), n, w)));
  }

  lemma RadiiNonNegative(n: nat, w: int, m: int)
    requires w >= 1
    ensures forall i :: 0 <= i < n ==> Radii(n, w, m)[i] >= 0
  {
  }
}
