/** The blur filter on a picture: three planes laid out flat, blurred and put back. */
module ImageBlur {
  import opened Bytes
  import opened BlurSpec
  import opened BlurFilter
  import opened Images
  import BoxSizes

  /** One colour of a picture as real samples. */
  ghost function Plane(p: Picture, c: nat): (m: Matrix)
    requires p.Rectangular()
    ensures |m| == p.height && Rect(m, p.width)
    ensures forall i, j :: 0 <= i < p.height && 0 <= j < p.width ==> m[i][j] == Channel(p.rows[i][j], c) as real
  {
    seq(p.height, i requires 0 <= i < p.height =>
      seq(p.width, j requires 0 <= j < p.width => Channel(p.rows[i][j], c) as real))
  }

  lemma PlaneInRange(p: Picture, c: nat, lo: byte, hi: byte)
    requires p.Rectangular()
    requires forall i, j :: 0 <= i < p.height && 0 <= j < p.width ==> lo <= Channel(p.rows[i][j], c) <= hi
    ensures InRange(Plane(p, c), lo as real, hi as real)
  {
  }

  lemma GaussianInRange(m: Matrix, w: nat, sigma: real, lo: real, hi: real)
    requires Rect(m, w) && InRange(m, lo, hi)
    ensures InRange(Gaussian(m, w, sigma), lo, hi)
  {
    BoxSizes.BoxRadiiNonNegative(sigma, 3);
    var r := BoxSizes.BoxRadii(sigma, 3);
    ThreeBoxesRange(m, w, r[0], r[1], r[2], lo, hi);
  }

  /** static_cast<uint8_t> of a double, which has no defined result elsewhere. */
  function Cast(x: real): byte
    requires 0.0 <= x < 256.0
  {
    x.Floor
  }

  /** Every blurred sample can be cast to a byte. */
  lemma BlurredFits(p: Picture, sigma: real, c: nat)
    requires p.Rectangular()
    ensures InRange(Gaussian(Plane(p, c), p.width, sigma), 0.0, 255.0)
  {
    PlaneInRange(p, c, 0, 255);
    GaussianInRange(Plane(p, c), p.width, sigma, 0.0, 255.0);
  }

  ghost function BlurredPixel(p: Picture, sigma: real, i: nat, j: nat): Pixel
    requires p.Rectangular() && i < p.height && j < p.width
  {
    BlurredFits(p, sigma, 0);
    BlurredFits(p, sigma, 1);
    BlurredFits(p, sigma, 2);
    Pixel(Cast(Gaussian(Plane(p, 0), p.width, sigma)[i][j]), Cast(Gaussian(Plane(p, 1), p.width, sigma)[i][j]),
          Cast(Gaussian(Plane(p, 2), p.width, sigma)[i][j]))
  }

  ghost function Blurred(p: Picture, sigma: real): (q: Picture)
    requires p.Rectangular()
    ensures SameSize(p, q)
    ensures forall i, j :: 0 <= i < p.height && 0 <= j < p.width ==> q.rows[i][j] == BlurredPixel(p, sigma, i, j)
  {
    Picture(p.width, p.height, seq(p.height, i requires 0 <= i < p.height =>
      seq(p.width, j requires 0 <= j < p.width => BlurredPixel(p, sigma, i, j))))
  }

  /** In q colour c of every pixel is the sample of b with its fraction cut off, where b is what the
      three radii for sigma make of that colour in p. */
  ghost predicate ColourBlurred(p: Picture, q: Picture, sigma: real, c: nat, m1: Matrix, m2: Matrix, b: Matrix)
    requires p.Rectangular() && SameSize(p, q)
  {
    var r := BoxSizes.BoxRadii(sigma, 3);
    && Means(Plane(p, c), p.width, r[0], m1) && Means(m1, p.width, r[1], m2) && Means(m2, p.width, r[2], b)
    && forall i, j :: 0 <= i < p.height && 0 <= j < p.width ==>
         Channel(q.rows[i][j], c) as real <= b[i][j] < Channel(q.rows[i][j], c) as real + 1.0
  }

  ghost predicate IsBlurred(p: Picture, q: Picture, sigma: real, c: nat)
    requires p.Rectangular() && SameSize(p, q)
  {
    exists m1, m2, b :: ColourBlurred(p, q, sigma, c, m1, m2, b)
  }

  lemma ColourIsCut(p: Picture, sigma: real, c: nat, i: nat, j: nat)
    requires p.Rectangular() && i < p.height && j < p.width && c < 3
    ensures var x := Gaussian(Plane(p, c), p.width, sigma)[i][j];
      Channel(Blurred(p, sigma).rows[i][j], c) as real <= x < Channel(Blurred(p, sigma).rows[i][j], c) as real + 1.0
  {
    hide Gaussian, Plane, Blurred;
    BlurredFits(p, sigma, 0);
    BlurredFits(p, sigma, 1);
    BlurredFits(p, sigma, 2);
    assert Blurred(p, sigma).rows[i][j] == BlurredPixel(p, sigma, i, j);
  }

  lemma ColourIsBlurred(p: Picture, sigma: real, c: nat)
    requires p.Rectangular() && c < 3
    ensures IsBlurred(p, Blurred(p, sigma), sigma, c)
  {
    var m1, m2 := GaussianIsMeans(Plane(p, c), p.width, sigma);
    hide Gaussian, Plane, Blurred, Means, Channel, BoxSizes.BoxRadii;
    var b := Gaussian(Plane(p, c), p.width, sigma);
    forall i, j | 0 <= i < p.height && 0 <= j < p.width
      ensures Channel(Blurred(p, sigma).rows[i][j], c) as real <= b[i][j] < Channel(Blurred(p, sigma).rows[i][j], c) as real + 1.0
    {
      ColourIsCut(p, sigma, c, i, j);
    }
    assert ColourBlurred(p, Blurred(p, sigma), sigma, c, m1, m2, b);
  }

  // ----- laying out a plane

  /** The first k samples are laid out row by row. */
  ghost predicate LaidOut(s: seq<real>, p: Picture, c: nat, k: nat) {
    && p.Rectangular() && |s| == p.width * p.height
    && forall i, j :: 0 <= i < p.height && 0 <= j < p.width && Flat(p.width, p.height, i, j) < k ==>
         s[Flat(p.width, p.height, i, j)] == Channel(p.rows[i][j], c) as real
  }

  lemma LaidOutNext(s: seq<real>, p: Picture, c: nat, k: nat, i: nat, j: nat)
    requires LaidOut(s, p, c, k) && i < p.height && j < p.width && k == Index(p.width, i, j)
    ensures k < |s| && |p.rows[i]| == p.width
    ensures LaidOut(s[k := Channel(p.rows[i][j], c) as real], p, c, k + 1)
  {
    var w, h := p.width, p.height;
    assert k == Flat(w, h, i, j);
    var t := s[k := Channel(p.rows[i][j], c) as real];
    forall i', j' | 0 <= i' < h && 0 <= j' < w && Flat(w, h, i', j') < k + 1
      ensures t[Flat(w, h, i', j')] == Channel(p.rows[i'][j'], c) as real
    {
      if Flat(w, h, i', j') == k {
        FlatInjective(w, h, i, j, i', j');
      }
    }
  }

  lemma LaidOutAll(s: seq<real>, p: Picture, c: nat)
    requires LaidOut(s, p, c, |s|)
    ensures |s| == p.width * p.height && Unflatten(s, p.width, p.height) == Plane(p, c)
  {
    SameCells(Unflatten(s, p.width, p.height), Plane(p, c), p.width);
  }

  // ----- the filter

  /** The place of pixel (i, j) in the layout, for running indices that may have left the picture. */
  function Index(w: nat, i: nat, j: nat): nat {
    i * w + j
  }

  /** The running indices after one more step. */
  method Advance(i: nat, j: nat, w: nat) returns (i': nat, j': nat)
    requires j < w
    ensures j' < w && Index(w, i', j') == Index(w, i, j) + 1
    ensures if j + 1 == w then i' == i + 1 && j' == 0 else i' == i && j' == j + 1
  {
    i', j' := i, j + 1;
    if j' == w {
      i', j' := i' + 1, 0;
      NextRow(i, w);
    }
  }

  lemma NextRow(i: nat, w: nat)
    ensures (i + 1) * w == i * w + w
  {
  }

  lemma Inside(i: nat, j: nat, w: nat, h: nat)
    ensures Index(w, i, j) < w * h ==> i < h
    ensures w == 0 ==> w * h == 0
  {
    if i >= h {
      Below(h, i, w);
    }
  }

  lemma Below(h: nat, i: nat, w: nat)
    requires h <= i
    ensures w * h <= i * w
  {
  }

  lemma FirstIndex(w: nat)
    ensures Index(w, 0, 0) == 0
  {
  }

  /** The first loop: the three colours copied out. */
  method LayOut(image: Image, b: array<real>, g: array<real>, r: array<real>)
    requires image.Valid() && b != g && b != r && g != r
    requires b.Length == image.width * image.height == g.Length == r.Length
    modifies b, g, r
    ensures LaidOut(b[..], image.Value(), 0, b.Length) && LaidOut(g[..], image.Value(), 1, b.Length)
    ensures LaidOut(r[..], image.Value(), 2, b.Length)
  {
    ghost var p := image.Value();
    var i: nat, j: nat := 0, 0;
    assert LaidOut(b[..], p, 0, 0) && LaidOut(g[..], p, 1, 0) && LaidOut(r[..], p, 2, 0);
    hide LaidOut, Index;
    FirstIndex(p.width);
    Inside(0, 0, p.width, p.height);
    for k := 0 to b.Length
      invariant Index(p.width, i, j) == k && (k < b.Length ==> i < p.height && j < p.width)
      invariant LaidOut(b[..], p, 0, k) && LaidOut(g[..], p, 1, k) && LaidOut(r[..], p, 2, k)
    {
      LaidOutNext(b[..], p, 0, k, i, j);
      LaidOutNext(g[..], p, 1, k, i, j);
      LaidOutNext(r[..], p, 2, k, i, j);
      var pixel := image.GetPixel(i, j);
      b[k], g[k], r[k] := pixel.B as real, pixel.G as real, pixel.R as real;
      i, j := Advance(i, j, image.width);
      Inside(i, j, p.width, p.height);
    }
  }

  lemma AtEnd(i: nat, j: nat, w: nat, h: nat)
    requires j < w && Index(w, i, j) == w * h
    ensures i == h && j == 0
  {
    if i < h {
      Below(i + 1, h, w);
      NextRow(i, w);
    } else if i > h {
      Below(h + 1, i, w);
      NextRow(h, w);
    }
  }

  lemma NothingToDo(p: Picture, q: Picture)
    requires SameSize(p, q) && (p.width == 0 || p.height == 0)
    ensures p == q
  {
  }

  lemma NoSamples(w: nat, h: nat)
    requires w * h == 0
    ensures w == 0 || h == 0
  {
  }

  /** The three samples at k are the pixel's colours before the fraction is cut off. */
  ghost predicate Samples(b: seq<real>, g: seq<real>, r: seq<real>, k: nat, x: Pixel) {
    && k < |b| && k < |g| && k < |r|
    && 0.0 <= b[k] < 256.0 && 0.0 <= g[k] < 256.0 && 0.0 <= r[k] < 256.0
    && x == Pixel(Cast(b[k]), Cast(g[k]), Cast(r[k]))
  }

  ghost predicate AllSamples(b: seq<real>, g: seq<real>, r: seq<real>, q: Picture) {
    q.Rectangular() && forall i, j :: 0 <= i < q.height && 0 <= j < q.width ==>
      Samples(b, g, r, Flat(q.width, q.height, i, j), q.rows[i][j])
  }

  lemma SamplesAt(b: seq<real>, g: seq<real>, r: seq<real>, q: Picture, i: nat, j: nat, k: nat)
    requires AllSamples(b, g, r, q) && i < q.height && j < q.width && k == Index(q.width, i, j)
    ensures i < |q.rows| && j < |q.rows[i]| && Samples(b, g, r, k, q.rows[i][j])
  {
    assert k == Flat(q.width, q.height, i, j);
  }

  /** Where the loop stands after a pixel. */
  ghost predicate Arrived(v: Picture, p: Picture, q: Picture, i: nat, j: nat) {
    if i < p.height then CellsDone(v, p, q, i, j) else Images.RowsDone(v, p, q, p.height)
  }

  lemma Arrive(v: Picture, p: Picture, q: Picture, i: nat, j: nat)
    requires CellsDone(v, p, q, i, j + 1) && i < p.height && j < p.width
    ensures if j + 1 == p.width then Arrived(v, p, q, i + 1, 0) else Arrived(v, p, q, i, j + 1)
  {
    hide CellsDone, Images.RowsDone;
    if j + 1 == p.width {
      RowEnds(v, p, q, i);
      if i + 1 < p.height {
        RowBegins(v, p, q, i + 1);
      }
    }
  }

  /** The last loop: the three colours put back. */
  method PutBack(image: Image, b: array<real>, g: array<real>, r: array<real>, ghost q: Picture)
    requires image.Valid() && SameSize(image.Value(), q)
    requires b.Length == image.width * image.height == g.Length == r.Length
    requires AllSamples(b[..], g[..], r[..], q)
    modifies image
    ensures image.Value() == q
  {
    ghost var p := image.Value();
    if b.Length == 0 {
      NoSamples(p.width, p.height);
      NothingToDo(p, q);
      return;
    }
    Inside(0, 0, p.width, p.height);
    FirstIndex(p.width);
    hide Images.RowsDone, CellsDone, SameSize, Rect, AllSamples, Arrived, Index;
    FirstArrived(p, q);
    var i: nat, j: nat := 0, 0;
    for k := 0 to b.Length
      invariant image.width == p.width && image.height == p.height && j < p.width
      invariant Index(p.width, i, j) == k && Arrived(image.Value(), p, q, i, j)
    {
      Inside(i, j, p.width, p.height);
      ArrivedAt(image.Value(), p, q, i, j);
      SamplesAt(b[..], g[..], r[..], q, i, j, k);
      image.SetPixel(i, j, Pixel(Cast(b[k]), Cast(g[k]), Cast(r[k])));
      Arrive(image.Value(), p, q, i, j);
      i, j := Advance(i, j, image.width);
    }
    AtEnd(i, j, p.width, p.height);
    Finished(image.Value(), p, q, i, j);
  }

  lemma FirstArrived(p: Picture, q: Picture)
    requires SameSize(p, q) && p.height > 0
    ensures Arrived(p, p, q, 0, 0)
  {
    hide CellsDone, SameSize, Images.RowsDone;
    NothingDone(p, q);
    RowBegins(p, p, q, 0);
  }

  lemma ArrivedAt(v: Picture, p: Picture, q: Picture, i: nat, j: nat)
    requires Arrived(v, p, q, i, j) && i < p.height && j < p.width
    ensures i < |v.rows| && j < |v.rows[i]| && i < |q.rows| && j < |q.rows[i]| && i < q.height && j < q.width
    ensures CellsDone(v.(rows := v.rows[i := v.rows[i][j := q.rows[i][j]]]), p, q, i, j + 1)
  {
    NextCell(v, p, q, i, j);
    CellSet(v, p, q, i, j);
  }

  lemma Finished(v: Picture, p: Picture, q: Picture, i: nat, j: nat)
    requires Arrived(v, p, q, i, j) && i == p.height
    ensures v == q
  {
    AllDone(v, p, q);
  }

  method BlurApply(image: Image, sigma: real)
    requires image.Valid() && RadiiFit(sigma, image.width, image.height)
    modifies image
    ensures image.Value() == Blurred(old(image.Value()), sigma)
    ensures IsBlurred(old(image.Value()), image.Value(), sigma, 0) && IsBlurred(old(image.Value()), image.Value(), sigma, 1)
    ensures IsBlurred(old(image.Value()), image.Value(), sigma, 2)
  {
    ghost var p := image.Value();
    var width, height := image.width, image.height;
    var size := width * height;
    var newB, newG, newR := new real[size], new real[size], new real[size];
    var prevB, prevG, prevR := new real[size], new real[size], new real[size];
    LayOut(image, prevB, prevG, prevR);
    LaidOutAll(prevB[..], p, 0);
    LaidOutAll(prevG[..], p, 1);
    LaidOutAll(prevR[..], p, 2);
    hide RadiiFit, Gaussian, Plane, Unflatten, LaidOut, Means, IsBlurred, Blurred, BoxSizes.BoxRadii;
    ghost var m1, m2;
    prevB, newB, m1, m2 := FastGaussianBlur(prevB, newB, width, height, sigma);
    prevG, newG, m1, m2 := FastGaussianBlur(prevG, newG, width, height, sigma);
    prevR, newR, m1, m2 := FastGaussianBlur(prevR, newR, width, height, sigma);
    AreSamples(newB[..], newG[..], newR[..], p, sigma);
    PutBack(image, newB, newG, newR, Blurred(p, sigma));
    ColourIsBlurred(p, sigma, 0);
    ColourIsBlurred(p, sigma, 1);
    ColourIsBlurred(p, sigma, 2);
  }

  lemma AreSamples(b: seq<real>, g: seq<real>, r: seq<real>, p: Picture, sigma: real)
    requires p.Rectangular() && |b| == p.width * p.height == |g| == |r|
    requires Unflatten(b, p.width, p.height) == Gaussian(Plane(p, 0), p.width, sigma)
    requires Unflatten(g, p.width, p.height) == Gaussian(Plane(p, 1), p.width, sigma)
    requires Unflatten(r, p.width, p.height) == Gaussian(Plane(p, 2), p.width, sigma)
    ensures AllSamples(b, g, r, Blurred(p, sigma))
  {
    hide Gaussian, Plane, Unflatten, Blurred;
    var w, h, q := p.width, p.height, Blurred(p, sigma);
    BlurredFits(p, sigma, 0);
    BlurredFits(p, sigma, 1);
    BlurredFits(p, sigma, 2);
    forall i, j | 0 <= i < h && 0 <= j < w ensures Samples(b, g, r, Flat(w, h, i, j), q.rows[i][j]) {
      var k := Flat(w, h, i, j);
      assert b[k] == Gaussian(Plane(p, 0), w, sigma)[i][j] && g[k] == Gaussian(Plane(p, 1), w, sigma)[i][j]
          && r[k] == Gaussian(Plane(p, 2), w, sigma)[i][j];
    }
  }

  // ----- what blurring keeps

  /** Each colour stays between the least and the greatest value it had; a flat colour is unchanged. */
  lemma BlurKeepsRange(p: Picture, sigma: real, c: nat, lo: byte, hi: byte)
    requires p.Rectangular() && c < 3
    requires forall i, j :: 0 <= i < p.height && 0 <= j < p.width ==> lo <= Channel(p.rows[i][j], c) <= hi
    ensures forall i, j :: 0 <= i < p.height && 0 <= j < p.width ==>
      lo <= Channel(Blurred(p, sigma).rows[i][j], c) <= hi
  {
    hide Gaussian, Plane, Blurred;
    PlaneInRange(p, c, lo, hi);
    GaussianInRange(Plane(p, c), p.width, sigma, lo as real, hi as real);
    forall i, j | 0 <= i < p.height && 0 <= j < p.width
      ensures lo <= Channel(Blurred(p, sigma).rows[i][j], c) <= hi
    {
      var x := Gaussian(Plane(p, c), p.width, sigma)[i][j];
      BlurredFits(p, sigma, c);
      assert Blurred(p, sigma).rows[i][j] == BlurredPixel(p, sigma, i, j);
      assert Channel(BlurredPixel(p, sigma, i, j), c) == x.Floor;
    }
  }
}
