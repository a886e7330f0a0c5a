/** Filters applied one after the other, and what a run of them comes to. */
module Pipelines {
  import opened Bytes
  import opened Images
  import BlurSpec
  import BlurFilter
  import ImageBlur

  datatype Filter = Crop(w: nat, h: nat) | Negative | Sharpening | Blur(sigma: real)

  const SHARP_CENTRAL_COEFF: int := 5

  const SHARP_MATRIX: Weights := [[0, -1, 0], [-1, SHARP_CENTRAL_COEFF, -1], [0, -1, 0]]

  /** What one filter makes of a picture. */
  ghost function Filtered(f: Filter, p: Picture): (q: Picture)
    requires p.Rectangular()
    ensures q.Rectangular()
  {
    match f
    case Crop(w, h) => Cropped(p, w, h)
    case Negative => Negated(p)
    case Sharpening => Convolved(p, SHARP_MATRIX)
    case Blur(sigma) => ImageBlur.Blurred(p, sigma)
  }

  /** A blur needs windows that fit the picture. */
  ghost predicate Applicable(f: Filter, p: Picture) {
    f.Blur? ==> BlurFilter.RadiiFit(f.sigma, p.width, p.height)
  }

  ghost function FilteredAll(fs: seq<Filter>, p: Picture): (q: Picture)
    requires p.Rectangular()
    ensures q.Rectangular()
  {
    if fs == [] then p else Filtered(fs[|fs| - 1], FilteredAll(fs[..|fs| - 1], p))
  }

  ghost predicate AllApplicable(fs: seq<Filter>, p: Picture)
    requires p.Rectangular()
  {
    forall i :: 0 <= i < |fs| ==> Applicable(fs[i], FilteredAll(fs[..i], p))
  }

  class Pipeline {
    var appliedFilters: seq<Filter>

    constructor ()
      ensures appliedFilters == []
    {
      appliedFilters := [];
    }

    method AddFilter(f: Filter)
      modifies this
      ensures appliedFilters == old(appliedFilters) + [f]
    {
      appliedFilters := appliedFilters + [f];
    }

    method Apply(image: Image)
      requires image.Valid() && AllApplicable(appliedFilters, image.Value())
      modifies image
      ensures image.Valid() && image.Value() == FilteredAll(appliedFilters, old(image.Value()))
    {
      hide Filtered, FilteredAll, Applicable;
      ghost var p := image.Value();
      assert appliedFilters[..0] == [];
      NoFilters(p);
      for i := 0 to |appliedFilters|
        invariant image.Valid() && image.Value() == FilteredAll(appliedFilters[..i], p)
      {
        MoreFilters(appliedFilters[..i], appliedFilters[i], p);
        assert appliedFilters[..i + 1] == appliedFilters[..i] + [appliedFilters[i]];
        ApplyOne(appliedFilters[i], image);
      }
      assert appliedFilters[..|appliedFilters|] == appliedFilters;
    }
  }

  /** The virtual Apply of the filters. */
  method ApplyOne(f: Filter, image: Image)
    requires image.Valid() && Applicable(f, image.Value())
    modifies image
    ensures image.Valid() && image.Value() == Filtered(f, old(image.Value()))
    ensures f.Crop? ==> IsCrop(old(image.Value()), image.Value(), f.w, f.h)
    ensures f.Negative? ==> IsNegative(old(image.Value()), image.Value())
    ensures f.Sharpening? ==> IsFiltered(old(image.Value()), image.Value(), SHARP_MATRIX)
    ensures f.Blur? ==> SameSize(old(image.Value()), image.Value()) && forall c :: 0 <= c < 3 ==>
      ImageBlur.IsBlurred(old(image.Value()), image.Value(), f.sigma, c)
  {
    hide Cropped, Negated, Convolved, IsNegative, IsCrop, IsFiltered, ImageBlur.IsBlurred, ImageBlur.Blurred, BlurSpec.Rect, BlurFilter.RadiiFit;
    match f
    case Crop(w, h) => CropApply(image, w, h);
    case Negative => NegativeApply(image);
    case Sharpening => ApplyMatrix(image, SHARP_MATRIX);
    case Blur(sigma) => ImageBlur.BlurApply(image, sigma);
  }

  lemma NoFilters(p: Picture)
    requires p.Rectangular()
    ensures FilteredAll([], p) == p
  {
  }

  lemma MoreFilters(fs: seq<Filter>, f: Filter, p: Picture)
    requires p.Rectangular()
    ensures FilteredAll(fs + [f], p) == Filtered(f, FilteredAll(fs, p))
  {
    assert (fs + [f])[..|fs|] == fs;
  }

  /** Two pipelines in a row are one. */
  lemma {:induction false} PipelinesCompose(fs: seq<Filter>, gs: seq<Filter>, p: Picture)
    requires p.Rectangular()
    ensures FilteredAll(fs + gs, p) == FilteredAll(gs, FilteredAll(fs, p))
  {
    hide Filtered, FilteredAll;
    if gs == [] {
      assert fs + gs == fs;
      NoFilters(FilteredAll(fs, p));
    } else {
      var n := |gs| - 1;
      PipelinesCompose(fs, gs[..n], p);
      assert fs + gs == fs + gs[..n] + [gs[n]] && gs == gs[..n] + [gs[n]];
      MoreFilters(fs + gs[..n], gs[n], p);
      MoreFilters(gs[..n], gs[n], FilteredAll(fs, p));
    }
  }

  // ----- crops and negatives

  lemma SamePicture(p: Picture, q: Picture)
    requires SameSize(p, q)
    requires forall i, j :: 0 <= i < p.height && 0 <= j < p.width ==> p.rows[i][j] == q.rows[i][j]
    ensures p == q
  {
    forall i | 0 <= i < p.height ensures p.rows[i] == q.rows[i] {
      assert forall j :: 0 <= j < p.width ==> p.rows[i][j] == q.rows[i][j];
    }
  }

  /** Cropping twice is cropping once, to the smaller sizes. */
  lemma CropTwice(p: Picture, w: nat, h: nat, w': nat, h': nat)
    requires p.Rectangular()
    ensures Cropped(Cropped(p, w, h), w', h') == Cropped(p, Min(w, w'), Min(h, h'))
  {
    hide Cropped;
    var a, b := Cropped(Cropped(p, w, h), w', h'), Cropped(p, Min(w, w'), Min(h, h'));
    forall i, j | 0 <= i < a.height && 0 <= j < a.width ensures a.rows[i][j] == b.rows[i][j] {
      var c := Cropped(p, w, h);
      CroppedAt(c, w', h', i, j);
      CroppedAt(p, w, h, c.height - Min(c.height, h') + i, j);
      CroppedAt(p, Min(w, w'), Min(h, h'), i, j);
    }
    SamePicture(a, b);
  }

  lemma CropAll(p: Picture)
    requires p.Rectangular()
    ensures Cropped(p, p.width, p.height) == p
  {
    hide Cropped;
    var q := Cropped(p, p.width, p.height);
    forall i, j | 0 <= i < p.height && 0 <= j < p.width ensures q.rows[i][j] == p.rows[i][j] {
      CroppedAt(p, p.width, p.height, i, j);
    }
    SamePicture(q, p);
  }

  lemma CropThenNegative(p: Picture, w: nat, h: nat)
    requires p.Rectangular()
    ensures Negated(Cropped(p, w, h)) == Cropped(Negated(p), w, h)
  {
    hide Cropped, Negated;
    var a, b := Negated(Cropped(p, w, h)), Cropped(Negated(p), w, h);
    forall i, j | 0 <= i < a.height && 0 <= j < a.width ensures a.rows[i][j] == b.rows[i][j] {
      NegatedAt(Cropped(p, w, h), i, j);
      CroppedAt(p, w, h, i, j);
      CroppedAt(Negated(p), w, h, i, j);
      NegatedAt(p, p.height - Min(p.height, h) + i, j);
    }
    SamePicture(a, b);
  }

  lemma NegativeTwice(p: Picture)
    requires p.Rectangular()
    ensures Negated(Negated(p)) == p
  {
    hide Negated;
    var q := Negated(Negated(p));
    forall i, j | 0 <= i < p.height && 0 <= j < p.width ensures q.rows[i][j] == p.rows[i][j] {
      NegatedAt(p, i, j);
      NegatedAt(Negated(p), i, j);
    }
    SamePicture(q, p);
  }

  /** The smallest width and height any crop asks for. */
  function LeastWidth(fs: seq<Filter>, w: nat): nat {
    if fs == [] then w
    else
      var f, least := fs[|fs| - 1], LeastWidth(fs[..|fs| - 1], w);
      if f.Crop? then Min(least, f.w) else least
  }

  function LeastHeight(fs: seq<Filter>, h: nat): nat {
    if fs == [] then h
    else
      var f, least := fs[|fs| - 1], LeastHeight(fs[..|fs| - 1], h);
      if f.Crop? then Min(least, f.h) else least
  }

  function Negatives(fs: seq<Filter>): nat {
    if fs == [] then 0 else Negatives(fs[..|fs| - 1]) + if fs[|fs| - 1].Negative? then 1 else 0
  }

  ghost function NegatedTimes(p: Picture, n: nat): (q: Picture)
    requires p.Rectangular()
    ensures q.Rectangular()
  {
    if n % 2 == 0 then p else Negated(p)
  }

  /** Crops and negatives in any order and number come to one crop, to the least width and height, and a
      negative where their number is odd. */
  lemma {:induction false} CropsAndNegatives(fs: seq<Filter>, p: Picture)
    requires p.Rectangular() && forall f :: f in fs ==> f.Crop? || f.Negative?
    ensures FilteredAll(fs, p)
            == NegatedTimes(Cropped(p, LeastWidth(fs, p.width), LeastHeight(fs, p.height)), Negatives(fs))
  {
    hide Cropped, Negated;
    if fs == [] {
      CropAll(p);
    } else {
      var n := |fs| - 1;
      var f := fs[n];
      CropsAndNegatives(fs[..n], p);
      var c := Cropped(p, LeastWidth(fs[..n], p.width), LeastHeight(fs[..n], p.height));
      if f.Crop? {
        CropThenNegative(c, f.w, f.h);
        CropTwice(p, LeastWidth(fs[..n], p.width), LeastHeight(fs[..n], p.height), f.w, f.h);
      } else {
        NegativeTwice(c);
      }
    }
  }

  // ----- sharpening

  /** Five times the pixel less its four neighbours, those beyond an edge being the pixel at the edge. */
  lemma SharpenedIs(p: Picture, c: nat, i: nat, j: nat)
    requires p.Rectangular() && i < p.height && j < p.width
    ensures IsFiltered(p, Filtered(Sharpening, p), SHARP_MATRIX)
    ensures NineSum(p, SHARP_MATRIX, c, i, j) == 5 * Channel(p.rows[i][j], c)
      - Channel(p.rows[if i == 0 then 0 else i - 1][j], c) - Channel(p.rows[if i + 1 == p.height then i else i + 1][j], c)
      - Channel(p.rows[i][if j == 0 then 0 else j - 1], c) - Channel(p.rows[i][if j + 1 == p.width then j else j + 1], c)
  {
    ConvolvedIsFiltered(p, SHARP_MATRIX);
  }

  ghost predicate FlatColour(p: Picture, c: nat, v: int) {
    p.Rectangular() && forall i, j :: 0 <= i < p.height && 0 <= j < p.width ==> Channel(p.rows[i][j], c) == v
  }

  lemma FlatSample(p: Picture, c: nat, v: int, i: int, j: int)
    requires FlatColour(p, c, v) && p.width > 0 && p.height > 0
    ensures Sample(p, c, i, j) == v
  {
  }

  /** Over a flat colour a matrix multiplies by the sum of its weights. */
  lemma FlatConvolved(p: Picture, m: Weights, c: nat, v: int, i: nat, j: nat)
    requires FlatColour(p, c, v) && c < 3 && i < p.height && j < p.width
    ensures Channel(Convolved(p, m).rows[i][j], c)
         == ToByte((m[0][0] + m[0][1] + m[0][2] + m[1][0] + m[1][1] + m[1][2] + m[2][0] + m[2][1] + m[2][2]) * v)
  {
    assert p.Rectangular();
    hide Convolved, Weighted, Sample, FlatColour;
    ConvolvedAt(p, m, i, j);
    NineTerms(p, m, c, i, j);
    FlatSample(p, c, v, i - 1, j - 1);
    FlatSample(p, c, v, i - 1, j);
    FlatSample(p, c, v, i - 1, j + 1);
    FlatSample(p, c, v, i, j - 1);
    FlatSample(p, c, v, i, j);
    FlatSample(p, c, v, i, j + 1);
    FlatSample(p, c, v, i + 1, j - 1);
    FlatSample(p, c, v, i + 1, j);
    FlatSample(p, c, v, i + 1, j + 1);
    NineProducts(m, v);
  }

  lemma NineProducts(m: Weights, v: int)
    ensures m[0][0] * v + m[0][1] * v + m[0][2] * v + m[1][0] * v + m[1][1] * v + m[1][2] * v
          + m[2][0] * v + m[2][1] * v + m[2][2] * v
         == (m[0][0] + m[0][1] + m[0][2] + m[1][0] + m[1][1] + m[1][2] + m[2][0] + m[2][1] + m[2][2]) * v
  {
  }

  /** Sharpening leaves a flat colour as it is. */
  lemma SharpeningKeepsFlat(p: Picture, c: nat, v: byte)
    requires FlatColour(p, c, v) && c < 3
    ensures FlatColour(Filtered(Sharpening, p), c, v)
  {
    hide Convolved;
    forall i, j | 0 <= i < p.height && 0 <= j < p.width
      ensures Channel(Convolved(p, SHARP_MATRIX).rows[i][j], c) == v
    {
      FlatConvolved(p, SHARP_MATRIX, c, v, i, j);
    }
  }
}
