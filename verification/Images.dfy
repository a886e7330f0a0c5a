/** Pictures, the in-place operations on them and what the operations make of a picture. */
module Images {
  import opened Bytes
  import opened BlurSpec
  import opened Vectors

  datatype Pixel = Pixel(B: byte, G: byte, R: byte)

  type Rows = seq<seq<Pixel>>

  datatype Picture = Picture(width: nat, height: nat, rows: Rows) {
    /** What every operation relies on: height rows of width pixels each. */
    ghost predicate Rectangular() {
      |rows| == height && Rect(rows, width)
    }
  }

  const BLACK := Pixel(0, 0, 0)

  // ----- the image class

  class Image {
    var width: nat
    var height: nat
    var pixelMatrix: Rows

    constructor (p: Picture)
      ensures Value() == p
    {
      width, height, pixelMatrix := p.width, p.height, p.rows;
    }

    function Value(): Picture
      reads this
    {
      Picture(width, height, pixelMatrix)
    }

    ghost predicate Valid()
      reads this
    {
      Value().Rectangular()
    }

    function GetPixel(row: nat, col: nat): Pixel
      requires row < |pixelMatrix| && col < |pixelMatrix[row]|
      reads this
    {
      pixelMatrix[row][col]
    }

    method SetPixel(row: nat, col: nat, value: Pixel)
      requires row < |pixelMatrix| && col < |pixelMatrix[row]|
      modifies this
      ensures Value() == old(Value()).(rows := old(pixelMatrix)[row := old(pixelMatrix)[row][col := value]])
    {
      pixelMatrix := pixelMatrix[row := pixelMatrix[row][col := value]];
    }

    /** Added rows are empty: the picture is rectangular again only after the width is set too. */
    method SetImageHeight(h: nat)
      modifies this
      ensures Value() == Picture(old(width), h, Resized(old(pixelMatrix), h, []))
      ensures old(Valid()) && h <= old(height) ==> Valid()
    {
      height := h;
      pixelMatrix := Resized(pixelMatrix, h, []);
    }

    method SetImageWidth(w: nat)
      requires |pixelMatrix| == height
      modifies this
      ensures Valid() && width == w && height == old(height)
      ensures forall i :: 0 <= i < height ==> pixelMatrix[i] == Resized(old(pixelMatrix)[i], w, BLACK)
    {
      width := w;
      for i := 0 to height
        invariant width == w && height == old(height) == |pixelMatrix|
        invariant forall k :: 0 <= k < height ==>
          pixelMatrix[k] == if k < i then Resized(old(pixelMatrix)[k], w, BLACK) else old(pixelMatrix)[k]
      {
        pixelMatrix := pixelMatrix[i := Resized(pixelMatrix[i], w, BLACK)];
      }
    }
  }

  // ----- half-finished pictures

  ghost predicate SameSize(p: Picture, q: Picture) {
    p.Rectangular() && q.Rectangular() && p.width == q.width && p.height == q.height
  }

  /** v is on its way from p to q: the first i rows are done. */
  ghost predicate RowsDone(v: Picture, p: Picture, q: Picture, i: nat) {
    SameSize(p, q) && i <= p.height && v == p.(rows := q.rows[..i] + p.rows[i..])
  }

  /** v is on its way from p to q: the first i rows are done, and j pixels of the next. */
  ghost predicate CellsDone(v: Picture, p: Picture, q: Picture, i: nat, j: nat) {
    && SameSize(p, q) && i < p.height && j <= p.width
    && v == p.(rows := q.rows[..i] + [q.rows[i][..j] + p.rows[i][j..]] + p.rows[i + 1..])
  }

  lemma NothingDone(p: Picture, q: Picture)
    requires SameSize(p, q)
    ensures RowsDone(p, p, q, 0)
  {
  }

  lemma AllDone(v: Picture, p: Picture, q: Picture)
    requires RowsDone(v, p, q, p.height)
    ensures v == q
  {
  }

  lemma RowBegins(v: Picture, p: Picture, q: Picture, i: nat)
    requires RowsDone(v, p, q, i) && i < p.height
    ensures CellsDone(v, p, q, i, 0) && v.width == p.width
  {
    assert q.rows[i][..0] + p.rows[i][0..] == p.rows[i];
  }

  lemma RowEnds(v: Picture, p: Picture, q: Picture, i: nat)
    requires CellsDone(v, p, q, i, p.width)
    ensures RowsDone(v, p, q, i + 1)
  {
    assert q.rows[i][..p.width] + p.rows[i][p.width..] == q.rows[i];
  }

  /** The pixel whose turn it is has not been touched. */
  lemma NextCell(v: Picture, p: Picture, q: Picture, i: nat, j: nat)
    requires CellsDone(v, p, q, i, j) && j < p.width
    ensures SameSize(p, q) && i < p.height && i < |p.rows| && j < |p.rows[i]| && i < |q.rows| && j < |q.rows[i]|
    ensures i < |v.rows| && j < |v.rows[i]| && v.rows[i][j] == p.rows[i][j]
  {
  }

  lemma CellSet(v: Picture, p: Picture, q: Picture, i: nat, j: nat)
    requires CellsDone(v, p, q, i, j) && j < p.width
    requires i < |v.rows| && j < |v.rows[i]| && i < |q.rows| && j < |q.rows[i]|
    ensures CellsDone(v.(rows := v.rows[i := v.rows[i][j := q.rows[i][j]]]), p, q, i, j + 1)
  {
    var a, b := q.rows[i], p.rows[i];
    assert (a[..j] + b[j..])[j := a[j]] == a[..j + 1] + b[j + 1..];
  }

  // ----- negative

  function Inverted(x: Pixel): (y: Pixel) {
    Pixel(255 - x.B, 255 - x.G, 255 - x.R)
  }

  ghost function Negated(p: Picture): (q: Picture)
    requires p.Rectangular()
    ensures SameSize(p, q)
  {
    Picture(p.width, p.height, seq(p.height, i requires 0 <= i < p.height =>
      seq(p.width, j requires 0 <= j < p.width => Inverted(p.rows[i][j]))))
  }

  /** In q every colour is 255 less that in p. */
  ghost predicate IsNegative(p: Picture, q: Picture) {
    SameSize(p, q) && forall i, j :: 0 <= i < p.height && 0 <= j < p.width ==>
      p.rows[i][j].B + q.rows[i][j].B == 255 && p.rows[i][j].G + q.rows[i][j].G == 255 && p.rows[i][j].R + q.rows[i][j].R == 255
  }

  method NegativeApply(image: Image)
    requires image.Valid()
    modifies image
    ensures image.Value() == Negated(old(image.Value())) && IsNegative(old(image.Value()), image.Value())
  {
    ghost var p := image.Value();
    ghost var q := Negated(p);
    assert IsNegative(p, q);
    hide IsNegative, RowsDone, CellsDone, SameSize, Negated, Rect;
    NothingDone(p, q);
    for i := 0 to image.height
      invariant image.height == p.height && RowsDone(image.Value(), p, q, i)
    {
      RowBegins(image.Value(), p, q, i);
      for j := 0 to image.width
        invariant image.height == p.height && image.width == p.width && CellsDone(image.Value(), p, q, i, j)
      {
        NextCell(image.Value(), p, q, i, j);
        NegatedAt(p, i, j);
        CellSet(image.Value(), p, q, i, j);
        var pixel := image.GetPixel(i, j);
        image.SetPixel(i, j, Inverted(pixel));
      }
      RowEnds(image.Value(), p, q, i);
    }
    AllDone(image.Value(), p, q);
  }

  lemma NegatedAt(p: Picture, i: nat, j: nat)
    requires p.Rectangular() && i < p.height && j < p.width
    ensures |p.rows[i]| == |Negated(p).rows[i]| == p.width && Negated(p).rows[i][j] == Inverted(p.rows[i][j])
  {
  }

  // ----- crop

  function Min(a: nat, b: nat): nat {
    if a < b then a else b
  }

  /** The last rows and the first columns, no more than there are. */
  ghost function Cropped(p: Picture, w: nat, h: nat): (q: Picture)
    requires p.Rectangular()
    ensures q.Rectangular() && q.width == Min(p.width, w) && q.height == Min(p.height, h)
  {
    var w', h' := Min(p.width, w), Min(p.height, h);
    Picture(w', h', seq(h', i requires 0 <= i < h' => p.rows[p.height - h' + i][..w']))
  }

  lemma CroppedAt(p: Picture, w: nat, h: nat, i: nat, j: nat)
    requires p.Rectangular() && i < Min(p.height, h) && j < Min(p.width, w)
    ensures |Cropped(p, w, h).rows[i]| == Min(p.width, w) && |p.rows[p.height - Min(p.height, h) + i]| == p.width
    ensures Cropped(p, w, h).rows[i][j] == p.rows[p.height - Min(p.height, h) + i][j]
  {
  }

  /** The loops of Crop::Apply that pick the pixels. */
  method LastRows(image: Image, width: nat, height: nat) returns (matrix: Rows)
    requires image.Valid() && width <= image.width && height <= image.height
    ensures matrix == Cropped(image.Value(), width, height).rows
  {
    ghost var p := image.Value();
    ghost var q := Cropped(p, width, height);
    matrix := seq(height, i => seq(width, j => BLACK));
    ghost var blank := Picture(width, height, matrix);
    assert SameSize(blank, q);
    hide RowsDone, CellsDone, SameSize, Cropped, Rect;
    NothingDone(blank, q);
    for i := image.height - height to image.height
      invariant RowsDone(Picture(width, height, matrix), blank, q, i - (image.height - height))
    {
      ghost var k := i - (image.height - height);
      RowBegins(Picture(width, height, matrix), blank, q, k);
      for j := 0 to width
        invariant CellsDone(Picture(width, height, matrix), blank, q, k, j)
      {
        NextCell(Picture(width, height, matrix), blank, q, k, j);
        CroppedAt(p, width, height, k, j);
        CellSet(Picture(width, height, matrix), blank, q, k, j);
        var n := i - (image.height - height);
        matrix := matrix[n := matrix[n][j := image.GetPixel(i, j)]];
      }
      RowEnds(Picture(width, height, matrix), blank, q, k);
    }
    AllDone(Picture(width, height, matrix), blank, q);
  }

  /** q has the first w columns of the last h rows of p, or as many as there are. */
  ghost predicate IsCrop(p: Picture, q: Picture, w: nat, h: nat) {
    && p.Rectangular() && q.Rectangular()
    && q.width == (if w < p.width then w else p.width) && q.height == (if h < p.height then h else p.height)
    && forall i, j :: 0 <= i < q.height && 0 <= j < q.width ==> q.rows[i][j] == p.rows[p.height - q.height + i][j]
  }

  method CropApply(image: Image, w: nat, h: nat)
    requires image.Valid()
    modifies image
    ensures image.Value() == Cropped(old(image.Value()), w, h) && IsCrop(old(image.Value()), image.Value(), w, h)
  {
    ghost var p := image.Value();
    assert IsCrop(p, Cropped(p, w, h), w, h);
    hide IsCrop;
    var width, height := Min(image.width, w), Min(image.height, h);
    assert Cropped(p, w, h) == Cropped(p, width, height);
    hide Rect, Cropped;
    var matrix := LastRows(image, width, height);
    image.SetImageHeight(height);
    image.SetImageWidth(width);
    CopyInto(image, matrix);
  }

  /** The loops that put a matrix of pixels into an image of its size. */
  method CopyInto(image: Image, matrix: Rows)
    requires image.Valid() && |matrix| == image.height && Rect(matrix, image.width)
    modifies image
    ensures image.Value() == old(image.Value()).(rows := matrix)
  {
    ghost var p := image.Value();
    ghost var q := p.(rows := matrix);
    assert SameSize(p, q);
    hide RowsDone, CellsDone, SameSize, Rect;
    NothingDone(p, q);
    for i := 0 to image.height
      invariant image.height == p.height && RowsDone(image.Value(), p, q, i)
    {
      RowBegins(image.Value(), p, q, i);
      for j := 0 to image.width
        invariant image.height == p.height && image.width == p.width && CellsDone(image.Value(), p, q, i, j)
      {
        NextCell(image.Value(), p, q, i, j);
        CellSet(image.Value(), p, q, i, j);
        image.SetPixel(i, j, matrix[i][j]);
      }
      RowEnds(image.Value(), p, q, i);
    }
    AllDone(image.Value(), p, q);
  }

  // ----- a 3x3 matrix over the picture

  type Weights = m: seq<seq<int>> | |m| == 3 && |m[0]| == 3 && |m[1]| == 3 && |m[2]| == 3
    ghost witness [[0, 0, 0], [0, 0, 0], [0, 0, 0]]

  /** Blue, green and red by number. */
  function Channel(x: Pixel, c: nat): (v: byte)
    ensures (c == 0 ==> v == x.B) && (c == 1 ==> v == x.G) && (c == 2 ==> v == x.R)
  {
    if c == 0 then x.B else if c == 1 then x.G else x.R
  }

  /** The colour of the pixel nearest to (i, j). */
  ghost function Sample(p: Picture, c: nat, i: int, j: int): int
    requires p.Rectangular() && p.width > 0 && p.height > 0
  {
    Channel(p.rows[Clamp(i, p.height)][Clamp(j, p.width)], c)
  }

  /** The first n of the nine weighted neighbours, row by row. */
  ghost function Weighted(p: Picture, m: Weights, c: nat, i: nat, j: nat, n: nat): int
    requires p.Rectangular() && i < p.height && j < p.width && n <= 9
  {
    if n == 0 then 0
    else
      var di, dj := (n - 1) / 3, (n - 1) % 3;
      Weighted(p, m, c, i, j, n - 1) + m[di][dj] * Sample(p, c, i + di - 1, j + dj - 1)
  }

  function ToByte(x: int): (b: byte) {
    if x < 0 then 0 else if x > 255 then 255 else x
  }

  ghost function Convolved(p: Picture, m: Weights): (q: Picture)
    requires p.Rectangular()
    ensures SameSize(p, q)
  {
    Picture(p.width, p.height, seq(p.height, i requires 0 <= i < p.height =>
      seq(p.width, j requires 0 <= j < p.width =>
        Pixel(ToByte(Weighted(p, m, 0, i, j, 9)), ToByte(Weighted(p, m, 1, i, j, 9)), ToByte(Weighted(p, m, 2, i, j, 9))))))
  }

  lemma ConvolvedAt(p: Picture, m: Weights, i: nat, j: nat)
    requires p.Rectangular() && i < p.height && j < p.width
    ensures |Convolved(p, m).rows[i]| == p.width
    ensures Convolved(p, m).rows[i][j]
            == Pixel(ToByte(Weighted(p, m, 0, i, j, 9)), ToByte(Weighted(p, m, 1, i, j, 9)), ToByte(Weighted(p, m, 2, i, j, 9)))
  {
    hide Weighted;
  }

  /** The copy of the colours made before the first pixel is overwritten. */
  ghost predicate Snapshot(a: array3<int>, p: Picture)
    requires p.Rectangular()
    reads a
  {
    && a.Length0 == 3 && a.Length1 == p.height && a.Length2 == p.width
    && forall c, i, j :: 0 <= c < 3 && 0 <= i < p.height && 0 <= j < p.width ==> a[c, i, j] == Channel(p.rows[i][j], c)
  }

  /** nearest_pixel: one step back inside on every side where (i, j) has left the picture. */
  method NearestPixel(a: array3<int>, c: nat, i: int, j: int, ghost p: Picture) returns (r: int)
    requires p.Rectangular() && Snapshot(a, p) && c < 3
    requires -1 <= i <= p.height && -1 <= j <= p.width && p.height > 0 && p.width > 0
    ensures r == Sample(p, c, i, j)
  {
    var height, width := a.Length1, a.Length2;
    if i >= height && j >= width {
      return a[c, i - 1, j - 1];
    } else if i >= height && j < 0 {
      return a[c, i - 1, j + 1];
    } else if i < 0 && j >= width {
      return a[c, i + 1, j - 1];
    } else if i < 0 && j < 0 {
      return a[c, i + 1, j + 1];
    } else if i < 0 {
      return a[c, i + 1, j];
    } else if i >= height {
      return a[c, i - 1, j];
    } else if j < 0 {
      return a[c, i, j + 1];
    } else if j >= width {
      return a[c, i, j - 1];
    }
    return a[c, i, j];
  }

  /** apply_for_color. */
  method ApplyForColor(a: array3<int>, m: Weights, c: nat, i: nat, j: nat, ghost p: Picture) returns (r: byte)
    requires p.Rectangular() && Snapshot(a, p) && c < 3 && i < p.height && j < p.width
    ensures r == ToByte(Weighted(p, m, c, i, j, 9))
  {
    hide Snapshot, Sample, Weighted;
    var sum := 0;
    NoTerms(p, m, c, i, j);
    for di := -1 to 2
      invariant sum == Weighted(p, m, c, i, j, 3 * (di + 1))
    {
      for dj := -1 to 2
        invariant sum == Weighted(p, m, c, i, j, 3 * (di + 1) + (dj + 1))
      {
        var near := NearestPixel(a, c, i + di, j + dj, p);
        NextTerm(p, m, c, i, j, di, dj);
        sum := sum + m[1 + di][1 + dj] * near;
      }
    }
    r := ToByte(sum);
  }

  lemma NoTerms(p: Picture, m: Weights, c: nat, i: nat, j: nat)
    requires p.Rectangular() && i < p.height && j < p.width
    ensures Weighted(p, m, c, i, j, 0) == 0
  {
  }

  lemma NextTerm(p: Picture, m: Weights, c: nat, i: nat, j: nat, di: int, dj: int)
    requires p.Rectangular() && i < p.height && j < p.width && -1 <= di <= 1 && -1 <= dj <= 1
    ensures var n := 3 * (di + 1) + (dj + 1);
      Weighted(p, m, c, i, j, n + 1) == Weighted(p, m, c, i, j, n) + m[1 + di][1 + dj] * Sample(p, c, i + di, j + dj)
  {
  }

  /** The sum written out: each weight times the colour of the neighbour it stands over. */
  lemma NineTerms(p: Picture, m: Weights, c: nat, i: nat, j: nat)
    requires p.Rectangular() && i < p.height && j < p.width
    ensures Weighted(p, m, c, i, j, 9)
         == m[0][0] * Sample(p, c, i - 1, j - 1) + m[0][1] * Sample(p, c, i - 1, j) + m[0][2] * Sample(p, c, i - 1, j + 1)
          + m[1][0] * Sample(p, c, i, j - 1) + m[1][1] * Sample(p, c, i, j) + m[1][2] * Sample(p, c, i, j + 1)
          + m[2][0] * Sample(p, c, i + 1, j - 1) + m[2][1] * Sample(p, c, i + 1, j) + m[2][2] * Sample(p, c, i + 1, j + 1)
  {
    hide Weighted, Sample;
    NoTerms(p, m, c, i, j);
    NextTerm(p, m, c, i, j, -1, -1);
    NextTerm(p, m, c, i, j, -1, 0);
    NextTerm(p, m, c, i, j, -1, 1);
    NextTerm(p, m, c, i, j, 0, -1);
    NextTerm(p, m, c, i, j, 0, 0);
    NextTerm(p, m, c, i, j, 0, 1);
    NextTerm(p, m, c, i, j, 1, -1);
    NextTerm(p, m, c, i, j, 1, 0);
    NextTerm(p, m, c, i, j, 1, 1);
  }

  /** The nine weights times colour c of the pixel itself and of its neighbours above, below, left and
      right, where a neighbour outside the picture is the pixel at its edge. */
  ghost function NineSum(p: Picture, m: Weights, c: nat, i: nat, j: nat): int
    requires p.Rectangular() && i < p.height && j < p.width
  {
    var u, d := if i == 0 then 0 else i - 1, if i + 1 == p.height then i else i + 1;
    var l, r := if j == 0 then 0 else j - 1, if j + 1 == p.width then j else j + 1;
    m[0][0] * Channel(p.rows[u][l], c) + m[0][1] * Channel(p.rows[u][j], c) + m[0][2] * Channel(p.rows[u][r], c)
    + m[1][0] * Channel(p.rows[i][l], c) + m[1][1] * Channel(p.rows[i][j], c) + m[1][2] * Channel(p.rows[i][r], c)
    + m[2][0] * Channel(p.rows[d][l], c) + m[2][1] * Channel(p.rows[d][j], c) + m[2][2] * Channel(p.rows[d][r], c)
  }

  /** v is x, or the end of 0 .. 255 that x lies beyond. */
  ghost predicate IsCut(v: int, x: int) {
    (x < 0 ==> v == 0) && (0 <= x <= 255 ==> v == x) && (x > 255 ==> v == 255)
  }

  /** In q every colour of every pixel is the cut sum over p. */
  ghost predicate IsFiltered(p: Picture, q: Picture, m: Weights) {
    SameSize(p, q) && forall i, j :: 0 <= i < p.height && 0 <= j < p.width ==>
      IsCut(q.rows[i][j].B, NineSum(p, m, 0, i, j)) && IsCut(q.rows[i][j].G, NineSum(p, m, 1, i, j))
      && IsCut(q.rows[i][j].R, NineSum(p, m, 2, i, j))
  }

  lemma WeightedIsNineSum(p: Picture, m: Weights, c: nat, i: nat, j: nat)
    requires p.Rectangular() && i < p.height && j < p.width
    ensures Weighted(p, m, c, i, j, 9) == NineSum(p, m, c, i, j)
  {
    hide Weighted;
    NineTerms(p, m, c, i, j);
  }

  lemma ConvolvedIsFiltered(p: Picture, m: Weights)
    requires p.Rectangular()
    ensures IsFiltered(p, Convolved(p, m), m)
  {
    hide Convolved, Weighted, NineSum;
    var q := Convolved(p, m);
    forall i, j | 0 <= i < p.height && 0 <= j < p.width
      ensures IsCut(q.rows[i][j].B, NineSum(p, m, 0, i, j)) && IsCut(q.rows[i][j].G, NineSum(p, m, 1, i, j))
        && IsCut(q.rows[i][j].R, NineSum(p, m, 2, i, j))
    {
      ConvolvedAt(p, m, i, j);
      WeightedIsNineSum(p, m, 0, i, j);
      WeightedIsNineSum(p, m, 1, i, j);
      WeightedIsNineSum(p, m, 2, i, j);
    }
  }

  method ApplyMatrix(image: Image, m: Weights)
    requires image.Valid()
    modifies image
    ensures image.Value() == Convolved(old(image.Value()), m) && IsFiltered(old(image.Value()), image.Value(), m)
  {
    hide IsFiltered;
    ghost var p := image.Value();
    ghost var q := Convolved(p, m);
    ConvolvedIsFiltered(p, m);
    var a := TakeSnapshot(image);
    hide RowsDone, CellsDone, SameSize, Convolved, Weighted, Snapshot, Rect;
    NothingDone(p, q);
    for i := 0 to image.height
      invariant Snapshot(a, p) && image.height == p.height && RowsDone(image.Value(), p, q, i)
    {
      RowBegins(image.Value(), p, q, i);
      for j := 0 to image.width
        invariant Snapshot(a, p) && image.height == p.height && image.width == p.width
        invariant CellsDone(image.Value(), p, q, i, j)
      {
        NextCell(image.Value(), p, q, i, j);
        ConvolvedAt(p, m, i, j);
        CellSet(image.Value(), p, q, i, j);
        var b := ApplyForColor(a, m, 0, i, j, p);
        var g := ApplyForColor(a, m, 1, i, j, p);
        var r := ApplyForColor(a, m, 2, i, j, p);
        image.SetPixel(i, j, Pixel(b, g, r));
      }
      RowEnds(image.Value(), p, q, i);
    }
    AllDone(image.Value(), p, q);
  }

  method TakeSnapshot(image: Image) returns (a: array3<int>)
    requires image.Valid()
    ensures fresh(a) && Snapshot(a, image.Value())
  {
    a := new int[3, image.height, image.width];
    for i := 0 to image.height
      invariant forall c, k, j :: 0 <= c < 3 && 0 <= k < i && 0 <= j < image.width ==>
        a[c, k, j] == Channel(image.pixelMatrix[k][j], c)
    {
      for j := 0 to image.width
        invariant forall c, k, l :: 0 <= c < 3 && 0 <= k <= i && 0 <= l < image.width && (k < i || l < j) ==>
          a[c, k, l] == Channel(image.pixelMatrix[k][l], c)
      {
        var pixel := image.GetPixel(i, j);
        a[0, i, j], a[1, i, j], a[2, i, j] := pixel.B, pixel.G, pixel.R;
      }
    }
  }
}
