/** Which samples the passes read and write for any radius, and when all of them are in the buffer. */
module BlurBounds {
  import opened BlurFilter
  import BoxSizes

  predicate Inside(k: int, n: nat) {
    0 <= k < n
  }

  // ----- the loops over one line, index by index

  predicate FirstInside(t: int, stride: nat, r: nat, j: nat, n: nat)
    decreases r - j
  {
    j >= r || (Inside(t + j * stride, n) && FirstInside(t, stride, r, j + 1, n))
  }

  predicate RightInside(ti: int, li: int, stride: nat, j: int, len: nat, n: nat)
    decreases len - j
  {
    j >= len || (Inside(li, n) && Inside(ti, n) && RightInside(ti + stride, li + stride, stride, j + 1, len, n))
  }

  predicate MiddleInside(ti: int, li: int, ri: int, stride: nat, r: nat, j: int, len: nat, n: nat)
    decreases len - r - j
  {
    if j >= len - r then RightInside(ti, li, stride, len - r, len, n)
    else
      Inside(ri, n) && Inside(li, n) && Inside(ti, n)
      && MiddleInside(ti + stride, li + stride, ri + stride, stride, r, j + 1, len, n)
  }

  predicate LeftInside(t: int, ti: int, ri: int, stride: nat, r: nat, j: nat, len: nat, n: nat)
    decreases r + 1 - j
  {
    if j > r then MiddleInside(ti, t, ri, stride, r, r + 1, len, n)
    else Inside(ri, n) && Inside(ti, n) && LeftInside(t, ti + stride, ri + stride, stride, r, j + 1, len, n)
  }

  /** Every access to a buffer of n samples for the line of len samples at t, t + stride, .. is inside. */
  predicate LineInside(t: int, stride: nat, len: nat, r: nat, n: nat) {
    && Inside(t, n) && Inside(t + stride * (len - 1), n) && FirstInside(t, stride, r, 0, n)
    && LeftInside(t, t, t + r * stride, stride, r, 0, len, n)
  }

  predicate RowPassInside(i: nat, w: nat, h: nat, r: nat)
    decreases h - i
  {
    i >= h || (LineInside(i * w, 1, w, r, w * h) && RowPassInside(i + 1, w, h, r))
  }

  predicate ColumnPassInside(i: nat, w: nat, h: nat, r: nat)
    decreases w - i
  {
    i >= w || (LineInside(i, w, h, r, w * h) && ColumnPassInside(i + 1, w, h, r))
  }

  // ----- a line that the window fits

  /** Sample k of the line at t. */
  function At(t: int, stride: nat, k: int): int {
    t + k * stride
  }

  lemma AtNext(t: int, stride: nat, k: int)
    ensures At(t, stride, k) + stride == At(t, stride, k + 1)
    ensures At(t, stride, 0) == t
  {
  }

  ghost predicate OnLine(t: int, stride: nat, len: nat, n: nat) {
    forall k :: 0 <= k < len ==> Inside(At(t, stride, k), n)
  }

  lemma {:induction false} FirstFits(t: int, stride: nat, r: nat, j: nat, len: nat, n: nat)
    requires OnLine(t, stride, len, n) && r <= len
    ensures FirstInside(t, stride, r, j, n)
    decreases r - j
  {
    if j < r {
      assert Inside(At(t, stride, j), n);
      FirstFits(t, stride, r, j + 1, len, n);
    }
  }

  lemma {:induction false} RightFits(t: int, stride: nat, r: nat, j: int, len: nat, n: nat)
    requires OnLine(t, stride, len, n) && r + r + 1 <= len && len - r <= j
    ensures RightInside(At(t, stride, j), At(t, stride, j - r - 1), stride, j, len, n)
    decreases len - j
  {
    hide At;
    if j < len {
      AtNext(t, stride, j);
      AtNext(t, stride, j - r - 1);
      RightFits(t, stride, r, j + 1, len, n);
    }
  }

  lemma {:induction false} MiddleFits(t: int, stride: nat, r: nat, j: int, len: nat, n: nat)
    requires OnLine(t, stride, len, n) && r + r + 1 <= len && r + 1 <= j <= len - r
    ensures MiddleInside(At(t, stride, j), At(t, stride, j - r - 1), At(t, stride, j + r), stride, r, j, len, n)
    decreases len - j
  {
    hide At, RightInside;
    if j < len - r {
      AtNext(t, stride, j);
      AtNext(t, stride, j - r - 1);
      AtNext(t, stride, j + r);
      MiddleFits(t, stride, r, j + 1, len, n);
    } else {
      RightFits(t, stride, r, j, len, n);
    }
  }

  lemma {:induction false} LeftFits(t: int, stride: nat, r: nat, j: nat, len: nat, n: nat)
    requires OnLine(t, stride, len, n) && r + r + 1 <= len && j <= r + 1
    ensures LeftInside(t, At(t, stride, j), At(t, stride, j + r), stride, r, j, len, n)
    decreases r + 1 - j
  {
    hide At, MiddleInside;
    AtNext(t, stride, j);
    AtNext(t, stride, j + r);
    if j <= r {
      LeftFits(t, stride, r, j + 1, len, n);
    } else {
      MiddleFits(t, stride, r, j, len, n);
    }
  }

  lemma LineFits(t: int, stride: nat, len: nat, r: nat, n: nat)
    requires OnLine(t, stride, len, n) && r + r + 1 <= len
    ensures LineInside(t, stride, len, r, n)
  {
    FirstFits(t, stride, r, 0, len, n);
    LeftFits(t, stride, r, 0, len, n);
    hide LeftInside, FirstInside;
    assert At(t, stride, 0) == t && At(t, stride, r) == t + r * stride;
    assert Inside(At(t, stride, 0), n) && Inside(At(t, stride, len - 1), n);
    assert At(t, stride, len - 1) == t + stride * (len - 1);
  }

  // ----- a line that it does not fit

  /** The last step writes what many steps reach. */
  lemma {:induction false} RightReaches(ti: int, li: int, stride: nat, j: int, len: nat, n: nat)
    requires RightInside(ti, li, stride, j, len, n) && j < len
    ensures Inside(At(ti, stride, len - 1 - j), n)
    decreases len - j
  {
    hide At;
    AtNext(ti, stride, 0);
    if j < len - 1 {
      RightReaches(ti + stride, li + stride, stride, j + 1, len, n);
      AtShift(ti, stride, len - 2 - j);
    }
  }

  lemma AtShift(t: int, stride: nat, k: int)
    ensures At(t + stride, stride, k) == At(t, stride, k + 1)
  {
  }

  lemma {:induction false} LeftReaches(t: int, ti: int, ri: int, stride: nat, r: nat, j: nat, len: nat, n: nat)
    requires LeftInside(t, ti, ri, stride, r, j, len, n) && j <= r + 1 && len <= r + r && r > 0
    ensures Inside(At(ti, stride, r + r - j), n)
    decreases r + 1 - j
  {
    hide At;
    if j <= r {
      LeftReaches(t, ti + stride, ri + stride, stride, r, j + 1, len, n);
      AtShift(ti, stride, r + r - j - 1);
    } else {
      RightReaches(ti, t, stride, len - r, len, n);
    }
  }

  /** With a window wider than the line, a line that stays inside would have 2r + 1 samples. */
  lemma LineReaches(t: int, stride: nat, len: nat, r: nat, n: nat)
    requires LineInside(t, stride, len, r, n) && len <= r + r && r > 0
    ensures Inside(At(t, stride, r + r), n)
  {
    LeftReaches(t, t, t + r * stride, stride, r, 0, len, n);
  }

  // ----- a whole pass

  lemma RowOnLine(w: nat, h: nat, i: nat)
    requires i < h
    ensures OnLine(i * w, 1, w, w * h)
  {
    forall k | 0 <= k < w ensures Inside(At(i * w, 1, k), w * h) {
      assert Flat(w, h, i, k) == At(i * w, 1, k);
    }
  }

  lemma ColumnOnLine(w: nat, h: nat, i: nat)
    requires i < w
    ensures OnLine(i, w, h, w * h)
  {
    forall k | 0 <= k < h ensures Inside(At(i, w, k), w * h) {
      assert Flat(w, h, k, i) == At(i, w, k);
    }
  }

  lemma {:induction false} RowsStay(i: nat, w: nat, h: nat, r: nat)
    requires r + r + 1 <= w
    ensures RowPassInside(i, w, h, r)
    decreases h - i
  {
    hide LineInside;
    if i < h {
      RowOnLine(w, h, i);
      LineFits(i * w, 1, w, r, w * h);
      RowsStay(i + 1, w, h, r);
    }
  }

  lemma {:induction false} ColumnsStay(i: nat, w: nat, h: nat, r: nat)
    requires r + r + 1 <= h
    ensures ColumnPassInside(i, w, h, r)
    decreases w - i
  {
    hide LineInside;
    if i < w {
      ColumnOnLine(w, h, i);
      LineFits(i, w, h, r, w * h);
      ColumnsStay(i + 1, w, h, r);
    }
  }

  lemma {:induction false} LastRow(i: nat, w: nat, h: nat, r: nat)
    requires RowPassInside(i, w, h, r) && i < h
    ensures LineInside((h - 1) * w, 1, w, r, w * h)
    decreases h - i
  {
    hide LineInside;
    if i < h - 1 {
      LastRow(i + 1, w, h, r);
    }
  }

  lemma EmptyLine(t: int, stride: nat, len: nat, r: nat, n: nat)
    requires LineInside(t, stride, len, r, n)
    ensures n > 0
  {
  }

  lemma NoSamplesIn(w: nat, h: nat)
    requires w == 0 || h == 0
    ensures w * h == 0
  {
  }

  lemma BehindTheRows(w: nat, h: nat, r: nat)
    requires h > 0 && w <= r + r
    ensures !Inside(At((h - 1) * w, 1, r + r), w * h)
  {
    assert (h - 1) * w + w == w * h;
  }

  lemma BelowTheColumns(w: nat, h: nat, r: nat)
    requires h <= r + r
    ensures !Inside(At(0, w, r + r), w * h)
  {
    var d := r + r - h;
    assert (h + d) * w == h * w + d * w;
  }

  /** Every access of a row pass is inside its buffers if and only if it has no row to look at or the
      window fits the rows. */
  lemma RowPassStaysInsideIff(w: nat, h: nat, r: nat)
    ensures RowPassInside(0, w, h, r) <==> RowsFit(w, h, r)
  {
    hide LineInside;
    if h > 0 {
      if r + r + 1 <= w {
        RowsStay(0, w, h, r);
      } else if RowPassInside(0, w, h, r) {
        LastRow(0, w, h, r);
        EmptyLine((h - 1) * w, 1, w, r, w * h);
        if r == 0 {
          NoSamplesIn(w, h);
        } else {
          LineReaches((h - 1) * w, 1, w, r, w * h);
          BehindTheRows(w, h, r);
        }
      }
    }
  }

  /** The same for a column pass. */
  lemma ColumnPassStaysInsideIff(w: nat, h: nat, r: nat)
    ensures ColumnPassInside(0, w, h, r) <==> ColumnsFit(w, h, r)
  {
    hide LineInside;
    if w > 0 {
      if r + r + 1 <= h {
        ColumnsStay(0, w, h, r);
      } else if ColumnPassInside(0, w, h, r) {
        EmptyLine(0, w, h, r, w * h);
        if r == 0 {
          NoSamplesIn(w, h);
        } else {
          LineReaches(0, w, h, r, w * h);
          BelowTheColumns(w, h, r);
        }
      }
    }
  }

  /** The blur's precondition is exactly that its six passes stay inside their buffers. */
  lemma RadiiFitIffInside(sigma: real, w: nat, h: nat)
    ensures RadiiFit(sigma, w, h) <==> forall k :: 0 <= k < 3 ==> PassesInside(BoxSizes.BoxRadii(sigma, 3), k, w, h)
  {
    hide RowPassInside, ColumnPassInside, RowsFit, ColumnsFit, BoxSizes.BoxRadii;
    BoxSizes.BoxRadiiNonNegative(sigma, 3);
    var radii := BoxSizes.BoxRadii(sigma, 3);
    forall k | 0 <= k < 3 ensures PassesInside(radii, k, w, h) <==> FitsAt(radii, k, w, h) {
      RowPassStaysInsideIff(w, h, radii[k]);
      ColumnPassStaysInsideIff(w, h, radii[k]);
    }
  }

  predicate PassesInside(radii: seq<int>, k: nat, w: nat, h: nat)
    requires k < |radii|
  {
    radii[k] >= 0 && RowPassInside(0, w, h, radii[k]) && ColumnPassInside(0, w, h, radii[k])
  }
}
