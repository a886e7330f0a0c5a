/** The running-sum blur over flat buffers, in place of the windows it stands for. */
module BlurFilter {
  import opened BlurSpec
  import BoxSizes

  // ----- flat buffers as pictures

  /** Position of sample (i, j) in a buffer of h rows of w samples. */
  function Flat(w: nat, h: nat, i: nat, j: nat): (k: nat)
    requires i < h && j < w
    ensures k == i * w + j && k < w * h
  {
    assert (i + 1) * w <= h * w;
    i * w + j
  }

  lemma FlatInjective(w: nat, h: nat, i: nat, j: nat, i': nat, j': nat)
    requires i < h && i' < h && j < w && j' < w
    requires Flat(w, h, i, j) == Flat(w, h, i', j')
    ensures i == i' && j == j'
  {
    assert i < i' ==> (i + 1) * w <= i' * w;
    assert i' < i ==> (i' + 1) * w <= i * w;
  }

  ghost function Unflatten(s: seq<real>, w: nat, h: nat): (m: Matrix)
    requires |s| == w * h
    ensures |m| == h && Rect(m, w)
    ensures forall i, j :: 0 <= i < h && 0 <= j < w ==> m[i][j] == s[Flat(w, h, i, j)]
  {
    seq(h, i requires 0 <= i < h => seq(w, j requires 0 <= j < w => s[Flat(w, h, i, j)]))
  }

  // ----- one line of a pass: a row or a column

  /** The buffer positions of row i, left to right. */
  ghost function RowPositions(w: nat, h: nat, i: nat): (p: seq<nat>)
    requires i < h
    ensures |p| == w && forall j :: 0 <= j < w ==> p[j] == Flat(w, h, i, j)
  {
    seq(w, j requires 0 <= j < w => Flat(w, h, i, j))
  }

  /** The buffer positions of column i, top to bottom. */
  ghost function ColumnPositions(w: nat, h: nat, i: nat): (p: seq<nat>)
    requires i < w
    ensures |p| == h && forall j :: 0 <= j < h ==> p[j] == Flat(w, h, j, i)
  {
    seq(h, j requires 0 <= j < h => Flat(w, h, j, i))
  }

  /** What a pass does to one line: where it lies, its samples, the running sum before
      each step and the mean each step writes. */
  datatype LinePlan = LinePlan(pos: seq<nat>, line: seq<real>, sums: seq<real>, means: seq<real>)

  ghost predicate Planned(src: seq<real>, out: seq<real>, plan: LinePlan, stride: nat, r: nat, iArr: real) {
    && |src| == |out|
    && |plan.pos| == |plan.line| == |plan.means| == |plan.sums| - 1
    && r + r + 1 <= |plan.line|
    && (forall j :: 0 <= j < |plan.pos| ==> plan.pos[j] < |src| && src[plan.pos[j]] == plan.line[j])
    && plan.sums[0] == Scale((r + 1) as real, plan.line[0]) + ClampSum(plan.line, 0, r)
    && (forall j :: 0 <= j < |plan.line| ==> StepAt(plan, r, iArr, j))
    && (forall j :: 0 <= j < |plan.pos| ==> HopAt(plan, stride, j))
  }

  /** Step j adds the sample entering the window, removes the one leaving it and writes the mean. */
  ghost predicate StepAt(plan: LinePlan, r: nat, iArr: real, j: nat)
    requires j < |plan.line| == |plan.means| == |plan.sums| - 1
  {
    && plan.sums[j + 1] == plan.sums[j] + (plan.line[Clamp(j + r, |plan.line|)]
                                           - plan.line[Clamp(j - 1 - r, |plan.line|)])
    && plan.means[j] == Scale(plan.sums[j + 1], iArr)
  }

  ghost predicate HopAt(plan: LinePlan, stride: nat, j: nat) {
    j + 1 < |plan.pos| ==> plan.pos[j + 1] == plan.pos[j] + stride
  }

  ghost predicate Strided(plan: LinePlan, t: nat, stride: nat) {
    forall j :: 0 <= j < |plan.pos| ==> plan.pos[j] == t + j * stride
  }

  ghost predicate At(plan: LinePlan, j: int, i: nat) {
    0 <= j < |plan.pos| ==> plan.pos[j] == i
  }

  /** s is before, except that the first n samples of the line hold their means. */
  ghost predicate Written(s: seq<real>, before: seq<real>, plan: LinePlan, n: nat) {
    && |s| == |before| && n <= |plan.pos| && n <= |plan.means|
    && (forall j :: 0 <= j < |plan.pos| ==> plan.pos[j] < |s|)
    && (forall j :: 0 <= j < n ==> s[plan.pos[j]] == plan.means[j])
    && (forall k :: 0 <= k < |s| && k !in plan.pos ==> s[k] == before[k])
  }

  /** The buffer after the first n steps. */
  ghost function Filled(before: seq<real>, plan: LinePlan, n: nat): (s: seq<real>)
    requires n <= |plan.pos| && n <= |plan.means|
    requires forall j :: 0 <= j < |plan.pos| ==> plan.pos[j] < |before|
    ensures |s| == |before|
  {
    if n == 0 then before
    else Filled(before, plan, n - 1)[plan.pos[n - 1] := plan.means[n - 1]]
  }

  lemma FilledIsWritten(before: seq<real>, plan: LinePlan, n: nat)
    requires n <= |plan.pos| && n <= |plan.means|
    requires forall j :: 0 <= j < |plan.pos| ==> plan.pos[j] < |before|
    requires forall j, k :: 0 <= j < k < |plan.pos| ==> plan.pos[j] != plan.pos[k]
    ensures Written(Filled(before, plan, n), before, plan, n)
  {
    if n > 0 {
      FilledIsWritten(before, plan, n - 1);
    }
  }

  /** The plan whose sums and means are the window sums and window means of the line. */
  ghost function Plan(pos: seq<nat>, line: seq<real>, r: nat): (plan: LinePlan)
    requires |pos| == |line| && |line| > 0
  {
    LinePlan(pos, line,
             seq(|line| + 1, j requires 0 <= j <= |line| => WindowSum(line, j - 1, r)),
             seq(|line|, j requires 0 <= j < |line| => LineMean(line, j, r)))
  }

  lemma PlanSlides(src: seq<real>, out: seq<real>, pos: seq<nat>, line: seq<real>, t: nat, stride: nat, r: nat)
    requires |src| == |out| && forall j :: 0 <= j < |pos| ==> pos[j] == t + j * stride
    requires |pos| == |line| && r + r + 1 <= |line|
    requires forall j :: 0 <= j < |pos| ==> pos[j] < |src| && src[pos[j]] == line[j]
    ensures Planned(src, out, Plan(pos, line, r), stride, r, 1.0 / Width(r))
  {
    var plan, iArr := Plan(pos, line, r), 1.0 / Width(r);
    FirstWindow(line, r, r);
    forall j | 0 <= j < |line| ensures StepAt(plan, r, iArr, j) && HopAt(plan, stride, j) {
      PlanStep(line, r, j);
      assert (j + 1) * stride == j * stride + stride;
    }
  }

  lemma PlanStep(line: seq<real>, r: nat, j: nat)
    requires j < |line|
    ensures WindowSum(line, j, r)
         == WindowSum(line, j - 1, r) + (line[Clamp(j + r, |line|)] - line[Clamp(j - 1 - r, |line|)])
    ensures LineMean(line, j, r) == Scale(WindowSum(line, j, r), 1.0 / Width(r))
  {
    Slide(line, j - 1 - r, j + r);
    TimesReciprocal(WindowSum(line, j, r), Width(r));
  }

  /** The window just left of the line: r + 1 copies of the first sample, then r samples. */
  lemma FirstWindow(line: seq<real>, r: nat, n: nat)
    requires |line| > 0
    ensures ClampSum(line, -1 - r, n) == Scale((r + 1) as real, line[0]) + ClampSum(line, 0, n)
  {
    if n == 0 {
      ClampSumLeft(line, r + 1);
    } else {
      FirstWindow(line, r, n - 1);
    }
  }

  lemma TimesReciprocal(x: real, d: real)
    requires d > 0.0
    ensures x * (1.0 / d) == x / d
  {
    assert x * (1.0 / d) * d == x * (1.0 / d * d);
    assert 1.0 / d * d == 1.0;
    Quotient(x * (1.0 / d), d, x);
  }

  lemma RowPlanned(src: seq<real>, out: seq<real>, w: nat, h: nat, i: nat, r: nat)
    requires |src| == w * h == |out| && i < h && r + r + 1 <= w
    ensures Planned(src, out, Plan(RowPositions(w, h, i), Unflatten(src, w, h)[i], r), 1, r, 1.0 / Width(r))
  {
    PlanSlides(src, out, RowPositions(w, h, i), Unflatten(src, w, h)[i], i * w, 1, r);
  }

  lemma ColumnPlanned(src: seq<real>, out: seq<real>, w: nat, h: nat, i: nat, r: nat)
    requires |src| == w * h == |out| && i < w && r + r + 1 <= h
    ensures Planned(src, out, Plan(ColumnPositions(w, h, i), Column(Unflatten(src, w, h), w, i), r), w, r,
                    1.0 / Width(r))
  {
    PlanSlides(src, out, ColumnPositions(w, h, i), Column(Unflatten(src, w, h), w, i), i, w, r);
  }

  lemma ColumnDistinct(w: nat, h: nat, i: nat)
    requires i < w
    ensures var p := ColumnPositions(w, h, i); forall j, k :: 0 <= j < k < h ==> p[j] != p[k]
  {
    var p := ColumnPositions(w, h, i);
    forall j, k | 0 <= j < k < h ensures p[j] != p[k] {
      if p[j] == p[k] {
        FlatInjective(w, h, j, i, k, i);
      }
    }
  }

  // ----- the running sum along one line

  /** The running sum before the first step on the line starting at t. */
  method FirstSum(src: array<real>, t: nat, stride: nat, fv: real, r: nat, iArr: real, ghost plan: LinePlan)
    returns (val: real)
    requires Planned(src[..], src[..], plan, stride, r, iArr) && Strided(plan, t, stride)
    requires fv == plan.line[0]
    ensures val == plan.sums[0]
  {
    val := Scale((r + 1) as real, fv);
    for j := 0 to r
      invariant val == Scale((r + 1) as real, fv) + ClampSum(plan.line, 0, j)
    {
      assert plan.pos[j] == t + j * stride;
      val := val + src[t + j * stride];
    }
  }

  /** Steps 0 .. r: the sample leaving the window is always the first one. */
  method LeftRegime(src: array<real>, out: array<real>, t: nat, rt: nat, stride: nat, r: nat, iArr: real,
                    fv: real, v: real, ghost plan: LinePlan, ghost before: seq<real>)
    returns (ti: nat, ri: nat, val: real)
    requires src != out && Planned(src[..], before, plan, stride, r, iArr)
    requires At(plan, 0, t) && At(plan, r, rt)
    requires fv == plan.line[0] && v == plan.sums[0] && out[..] == before
    modifies out
    ensures At(plan, r + 1, ti) && At(plan, r + 1 + r, ri)
    ensures val == plan.sums[r + 1] && out[..] == Filled(before, plan, r + 1)
  {
    hide ClampSum, Scale;
    ti, ri, val := t, rt, v;
    for j := 0 to r + 1
      invariant At(plan, j, ti) && At(plan, j + r, ri)
      invariant val == plan.sums[j]
      invariant out[..] == Filled(before, plan, j)
    {
      assert StepAt(plan, r, iArr, j);
      assert HopAt(plan, stride, j) && HopAt(plan, stride, j + r);
      val := val + (src[ri] - fv);
      out[ti] := Scale(val, iArr);
      ri, ti := ri + stride, ti + stride;
    }
  }

  /** Steps r + 1 .. n - r - 1: the whole window lies on the line. */
  method MiddleRegime(src: array<real>, out: array<real>, t: nat, lt: nat, rt: nat, stride: nat, n: nat, r: nat,
                      iArr: real, v: real, ghost plan: LinePlan, ghost before: seq<real>)
    returns (ti: nat, li: nat, val: real)
    requires src != out && Planned(src[..], before, plan, stride, r, iArr) && n == |plan.pos|
    requires At(plan, r + 1, t) && At(plan, r + 1 + r, rt) && At(plan, 0, lt)
    requires v == plan.sums[r + 1] && out[..] == Filled(before, plan, r + 1)
    modifies out
    ensures At(plan, n - r, ti) && At(plan, n - r - r - 1, li)
    ensures val == plan.sums[n - r] && out[..] == Filled(before, plan, n - r)
  {
    hide ClampSum, Scale;
    ti, li, val := t, lt, v;
    var ri: nat := rt;
    for j := r + 1 to n - r
      invariant At(plan, j, ti) && At(plan, j + r, ri) && At(plan, j - r - 1, li)
      invariant val == plan.sums[j]
      invariant out[..] == Filled(before, plan, j)
    {
      assert StepAt(plan, r, iArr, j);
      assert HopAt(plan, stride, j) && HopAt(plan, stride, j + r) && HopAt(plan, stride, j - r - 1);
      assert src[ri] == plan.line[j + r] && src[li] == plan.line[j - 1 - r];
      val := val + (src[ri] - src[li]);
      assert val == plan.sums[j + 1];
      out[ti] := Scale(val, iArr);
      li, ri, ti := li + stride, ri + stride, ti + stride;
    }
  }

  /** Steps n - r .. n - 1: the sample entering the window is always the last one. */
  method RightRegime(src: array<real>, out: array<real>, t: nat, lt: nat, stride: nat, n: nat, r: nat, iArr: real,
                     lv: real, v: real, ghost plan: LinePlan, ghost before: seq<real>)
    requires src != out && Planned(src[..], before, plan, stride, r, iArr) && n == |plan.pos|
    requires At(plan, n - r, t) && At(plan, n - r - r - 1, lt)
    requires lv == plan.line[n - 1] && v == plan.sums[n - r] && out[..] == Filled(before, plan, n - r)
    modifies out
    ensures out[..] == Filled(before, plan, n)
  {
    hide ClampSum, Scale;
    var ti: nat, li: nat, val := t, lt, v;
    for j := n - r to n
      invariant At(plan, j, ti) && At(plan, j - r - 1, li)
      invariant val == plan.sums[j]
      invariant out[..] == Filled(before, plan, j)
    {
      assert StepAt(plan, r, iArr, j);
      assert HopAt(plan, stride, j) && HopAt(plan, stride, j - r - 1);
      val := val + (lv - src[li]);
      out[ti] := Scale(val, iArr);
      li, ti := li + stride, ti + stride;
    }
  }

  /** One line of n samples at t, t + stride, ..: a row has stride 1, a column has stride w. */
  method BlurLine(src: array<real>, out: array<real>, t: nat, stride: nat, n: nat, r: nat, iArr: real,
                  ghost plan: LinePlan)
    requires src != out && Planned(src[..], out[..], plan, stride, r, iArr)
    requires n == |plan.pos| && Strided(plan, t, stride)
    modifies out
    ensures out[..] == Filled(old(out[..]), plan, n)
  {
    ghost var before := out[..];
    assert plan.pos[0] == t && plan.pos[r] == t + r * stride;
    assert plan.pos[n - 1] == t + (n - 1) * stride == t + stride * (n - 1);
    var fv, lv := src[t], src[t + stride * (n - 1)];
    var val := FirstSum(src, t, stride, fv, r, iArr, plan);
    var ti, ri, li;
    ti, ri, val := LeftRegime(src, out, t, t + r * stride, stride, r, iArr, fv, val, plan, before);
    ti, li, val := MiddleRegime(src, out, ti, t, ri, stride, n, r, iArr, val, plan, before);
    RightRegime(src, out, ti, li, stride, n, r, iArr, lv, val, plan, before);
  }

  // ----- when the windows fit

  /** A row pass looks at no row, or at rows that a window fits. */
  predicate RowsFit(w: nat, h: nat, r: nat) {
    h == 0 || r + r + 1 <= w
  }

  predicate ColumnsFit(w: nat, h: nat, r: nat) {
    w == 0 || r + r + 1 <= h
  }

  // ----- horizontal pass

  method HorBlur(src: array<real>, out: array<real>, w: nat, h: nat, r: nat)
    requires src != out && src.Length == w * h == out.Length
    requires RowsFit(w, h, r)
    modifies out
    ensures Unflatten(out[..], w, h) == RowBlur(Unflatten(src[..], w, h), w, r)
  {
    var iArr := 1.0 / (r + r + 1) as real;
    ghost var m := Unflatten(src[..], w, h);
    for i := 0 to h
      invariant RowsDone(out[..], m, w, h, i, r)
    {
      RowPlanned(src[..], out[..], w, h, i, r);
      ghost var before := out[..];
      BlurLine(src, out, i * w, 1, w, r, iArr, Plan(RowPositions(w, h, i), m[i], r));
      FilledIsWritten(before, Plan(RowPositions(w, h, i), m[i], r), w);
      RowsStep(out[..], before, m, w, h, i, r);
    }
    SameCells(Unflatten(out[..], w, h), RowBlur(m, w, r), w);
  }

  ghost predicate RowsDone(s: seq<real>, m: Matrix, w: nat, h: nat, n: nat, r: nat)
    requires |s| == w * h && |m| == h && Rect(m, w) && n <= h
  {
    forall i, j :: 0 <= i < n && 0 <= j < w ==> s[Flat(w, h, i, j)] == LineMean(m[i], j, r)
  }

  lemma RowsStep(s: seq<real>, before: seq<real>, m: Matrix, w: nat, h: nat, n: nat, r: nat)
    requires |s| == w * h == |before| && |m| == h && Rect(m, w) && n < h && w > 0
    requires RowsDone(before, m, w, h, n, r)
    requires Written(s, before, Plan(RowPositions(w, h, n), m[n], r), w)
    ensures RowsDone(s, m, w, h, n + 1, r)
  {
    var p := RowPositions(w, h, n);
    forall i, j | 0 <= i < n + 1 && 0 <= j < w ensures s[Flat(w, h, i, j)] == LineMean(m[i], j, r) {
      if i == n {
        assert p[j] == Flat(w, h, n, j);
      } else if Flat(w, h, i, j) in p {
        var k :| 0 <= k < w && p[k] == Flat(w, h, i, j);
        FlatInjective(w, h, i, j, n, k);
      }
    }
  }

  lemma SameCells(a: Matrix, b: Matrix, w: nat)
    requires |a| == |b| && Rect(a, w) && Rect(b, w)
    requires forall i, j :: 0 <= i < |a| && 0 <= j < w ==> a[i][j] == b[i][j]
    ensures a == b
  {
    forall i | 0 <= i < |a| ensures a[i] == b[i] {
    }
  }

  // ----- vertical pass

  method TotalBlur(src: array<real>, out: array<real>, w: nat, h: nat, r: nat)
    requires src != out && src.Length == w * h == out.Length
    requires ColumnsFit(w, h, r)
    modifies out
    ensures Unflatten(out[..], w, h) == ColBlur(Unflatten(src[..], w, h), w, r)
  {
    var iArr := 1.0 / (r + r + 1) as real;
    ghost var m := Unflatten(src[..], w, h);
    for i := 0 to w
      invariant ColumnsDone(out[..], m, w, h, i, r)
    {
      ColumnPlanned(src[..], out[..], w, h, i, r);
      ghost var before := out[..];
      BlurLine(src, out, i, w, h, r, iArr, Plan(ColumnPositions(w, h, i), Column(m, w, i), r));
      ColumnDistinct(w, h, i);
      FilledIsWritten(before, Plan(ColumnPositions(w, h, i), Column(m, w, i), r), h);
      ColumnsStep(out[..], before, m, w, h, i, r);
    }
    SameCells(Unflatten(out[..], w, h), ColBlur(m, w, r), w);
  }

  ghost predicate ColumnsDone(s: seq<real>, m: Matrix, w: nat, h: nat, n: nat, r: nat)
    requires |s| == w * h && |m| == h && Rect(m, w) && n <= w
  {
    forall i, j :: 0 <= i < n && 0 <= j < h ==> s[Flat(w, h, j, i)] == LineMean(Column(m, w, i), j, r)
  }

  lemma ColumnsStep(s: seq<real>, before: seq<real>, m: Matrix, w: nat, h: nat, n: nat, r: nat)
    requires |s| == w * h == |before| && |m| == h && h > 0 && Rect(m, w) && n < w
    requires ColumnsDone(before, m, w, h, n, r)
    requires Written(s, before, Plan(ColumnPositions(w, h, n), Column(m, w, n), r), h)
    ensures ColumnsDone(s, m, w, h, n + 1, r)
  {
    var p := ColumnPositions(w, h, n);
    forall i, j | 0 <= i < n + 1 && 0 <= j < h
      ensures s[Flat(w, h, j, i)] == LineMean(Column(m, w, i), j, r)
    {
      if i == n {
        assert p[j] == Flat(w, h, j, n);
      } else if Flat(w, h, j, i) in p {
        var k :| 0 <= k < h && p[k] == Flat(w, h, j, i);
        FlatInjective(w, h, j, i, k, n);
      }
    }
  }

  // ----- composition by exchanging buffers

  /** The two reference parameters come back exchanged. */
  method BoxBlur(src: array<real>, out: array<real>, w: nat, h: nat, r: nat)
    returns (src': array<real>, out': array<real>)
    requires src != out && src.Length == w * h == out.Length
    requires RowsFit(w, h, r) && ColumnsFit(w, h, r)
    modifies src, out
    ensures src' == out && out' == src
    ensures Unflatten(out'[..], w, h) == BoxBlurred(old(Unflatten(src[..], w, h)), w, r)
  {
    src', out' := out, src;
    ghost var m := Unflatten(src[..], w, h);
    HorBlur(out', src', w, h, r);
    TotalBlur(src', out', w, h, r);
    Separable(m, w, r);
  }

  /** The radii that sigma calls for fit a picture of w x h samples; a picture of none fits them all. */
  ghost predicate RadiiFit(sigma: real, w: nat, h: nat) {
    forall k :: 0 <= k < 3 ==> FitsAt(BoxSizes.BoxRadii(sigma, 3), k, w, h)
  }

  predicate FitsAt(radii: seq<int>, k: nat, w: nat, h: nat)
    requires k < |radii|
  {
    radii[k] >= 0 && RowsFit(w, h, radii[k]) && ColumnsFit(w, h, radii[k])
  }

  /** The three box passes that sigma calls for. */
  ghost function Gaussian(m: Matrix, w: nat, sigma: real): (b: Matrix)
    requires Rect(m, w)
    ensures |b| == |m| && Rect(b, w)
  {
    BoxSizes.BoxRadiiNonNegative(sigma, 3);
    var r := BoxSizes.BoxRadii(sigma, 3);
    ThreeBoxes(m, w, r[0], r[1], r[2])
  }

  lemma GaussianIsMeans(m: Matrix, w: nat, sigma: real) returns (p: Matrix, q: Matrix)
    requires Rect(m, w)
    ensures var r := BoxSizes.BoxRadii(sigma, 3);
      Means(m, w, r[0], p) && Means(p, w, r[1], q) && Means(q, w, r[2], Gaussian(m, w, sigma))
  {
    hide Means, ThreeBoxes;
    BoxSizes.BoxRadiiNonNegative(sigma, 3);
    var r := BoxSizes.BoxRadii(sigma, 3);
    p, q := ThreeBoxesAre(m, w, r[0], r[1], r[2]);
  }

  /** The three passes with the three radii in turn: p holds the means over the first radius, q those of p
      over the second, and the output those of q over the third. */
  method FastGaussianBlur(src: array<real>, out: array<real>, w: nat, h: nat, sigma: real)
    returns (src': array<real>, out': array<real>, ghost p: Matrix, ghost q: Matrix)
    requires src != out && src.Length == w * h == out.Length && RadiiFit(sigma, w, h)
    modifies src, out
    ensures src' == out && out' == src
    ensures Unflatten(out'[..], w, h) == Gaussian(old(Unflatten(src[..], w, h)), w, sigma)
    ensures var r := BoxSizes.BoxRadii(sigma, 3);
      && Means(old(Unflatten(src[..], w, h)), w, r[0], p) && Means(p, w, r[1], q)
      && Means(q, w, r[2], Unflatten(out'[..], w, h))
  {
    var boxes := new int[3];
    BoxSizes.StdToBox(boxes, sigma, 3);
    ghost var r := BoxSizes.BoxRadii(sigma, 3);
    BoxSizes.BoxRadiiNonNegative(sigma, 3);
    assert boxes[0] == boxes[..3][0] == r[0] && boxes[1] == boxes[..3][1] == r[1] && boxes[2] == boxes[..3][2] == r[2];
    assert FitsAt(r, 0, w, h) && FitsAt(r, 1, w, h) && FitsAt(r, 2, w, h);
    p, q := GaussianIsMeans(Unflatten(src[..], w, h), w, sigma);
    hide BoxSizes.BoxRadii, BoxBlurred, Means;
    src', out' := BoxBlur(src, out, w, h, boxes[0]);
    out', src' := BoxBlur(out', src', w, h, boxes[1]);
    src', out' := BoxBlur(src', out', w, h, boxes[2]);
  }
}
