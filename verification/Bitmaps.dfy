/** The bitmap file: two packed headers and rows of pixels padded to a multiple of four bytes. */
module Bitmaps {
  import opened Bytes
  import opened BlurSpec
  import opened Images

  const BMP_SIGNATURE: nat := 0x4D42
  const DIB_BITS_PER_PIXEL: nat := 0x0018
  const BMP_HEADER_SIZE: nat := 14
  const DIB_HEADER_SIZE: nat := 40
  const TWO31: nat := 0x8000_0000

  datatype BmpHeader = BmpHeader(signature: nat, size: nat, reserved1: nat, reserved2: nat, offset: nat)

  datatype DibHeader = DibHeader(headerSize: nat, width: nat, height: nat, colorPlanesNum: nat, bitsPerPixel: nat,
                                 compression: nat, imageSize: nat, horRes: nat, verRes: nat, colorsNum: nat,
                                 importantColorsNum: nat)

  ghost predicate BmpFits(h: BmpHeader) {
    h.signature < 65536 && h.size < TWO32 && h.reserved1 < 65536 && h.reserved2 < 65536 && h.offset < TWO32
  }

  ghost predicate DibFits(h: DibHeader) {
    && h.headerSize < TWO32 && h.width < TWO31 && h.height < TWO31 && h.colorPlanesNum < 65536 && h.bitsPerPixel < 65536
    && h.compression < TWO32 && h.imageSize < TWO32 && h.horRes < TWO32 && h.verRes < TWO32 && h.colorsNum < TWO32
    && h.importantColorsNum < TWO32
  }

  // ----- the headers in memory

  function BmpBytes(h: BmpHeader): (s: seq<byte>)
    ensures |s| == BMP_HEADER_SIZE
  {
    LittleEndian(h.signature, 2) + LittleEndian(h.size, 4) + LittleEndian(h.reserved1, 2) + LittleEndian(h.reserved2, 2)
    + LittleEndian(h.offset, 4)
  }

  function BmpFrom(s: seq<byte>): BmpHeader
    requires |s| == BMP_HEADER_SIZE
  {
    BmpHeader(FromLittleEndian(s[..2]), FromLittleEndian(s[2..6]), FromLittleEndian(s[6..8]), FromLittleEndian(s[8..10]),
              FromLittleEndian(s[10..]))
  }

  function DibBytes(h: DibHeader): (s: seq<byte>)
    ensures |s| == DIB_HEADER_SIZE
  {
    LittleEndian(h.headerSize, 4) + LittleEndian(h.width, 4) + LittleEndian(h.height, 4)
    + LittleEndian(h.colorPlanesNum, 2) + LittleEndian(h.bitsPerPixel, 2) + LittleEndian(h.compression, 4)
    + LittleEndian(h.imageSize, 4) + LittleEndian(h.horRes, 4) + LittleEndian(h.verRes, 4)
    + LittleEndian(h.colorsNum, 4) + LittleEndian(h.importantColorsNum, 4)
  }

  function DibFrom(s: seq<byte>): DibHeader
    requires |s| == DIB_HEADER_SIZE
  {
    DibHeader(FromLittleEndian(s[..4]), FromLittleEndian(s[4..8]), FromLittleEndian(s[8..12]), FromLittleEndian(s[12..14]),
              FromLittleEndian(s[14..16]), FromLittleEndian(s[16..20]), FromLittleEndian(s[20..24]),
              FromLittleEndian(s[24..28]), FromLittleEndian(s[28..32]), FromLittleEndian(s[32..36]), FromLittleEndian(s[36..]))
  }

  lemma Field(v: nat, k: nat, s: seq<byte>)
    requires s == LittleEndian(v, k) && ((k == 2 && v < 65536) || (k == 4 && v < TWO32))
    ensures FromLittleEndian(s) == v
  {
    Pow256Values();
    LittleEndianRoundTrip(v, k);
  }

  lemma BmpRoundTrip(h: BmpHeader)
    requires BmpFits(h)
    ensures BmpFrom(BmpBytes(h)) == h
  {
    hide LittleEndian, FromLittleEndian;
    var s := BmpBytes(h);
    Field(h.signature, 2, s[..2]);
    Field(h.size, 4, s[2..6]);
    Field(h.reserved1, 2, s[6..8]);
    Field(h.reserved2, 2, s[8..10]);
    Field(h.offset, 4, s[10..]);
  }

  lemma DibRoundTrip(h: DibHeader)
    requires DibFits(h)
    ensures DibFrom(DibBytes(h)) == h
  {
    hide LittleEndian, FromLittleEndian;
    var s := DibBytes(h);
    Field(h.headerSize, 4, s[..4]);
    Field(h.width, 4, s[4..8]);
    Field(h.height, 4, s[8..12]);
    Field(h.colorPlanesNum, 2, s[12..14]);
    Field(h.bitsPerPixel, 2, s[14..16]);
    Field(h.compression, 4, s[16..20]);
    Field(h.imageSize, 4, s[20..24]);
    Field(h.horRes, 4, s[24..28]);
    Field(h.verRes, 4, s[28..32]);
    Field(h.colorsNum, 4, s[32..36]);
    Field(h.importantColorsNum, 4, s[36..]);
  }

  // ----- the pixels

  function Padding(w: nat): (k: nat) {
    (4 - (w * 3) % 4) % 4
  }

  function Stride(w: nat): nat {
    3 * w + Padding(w)
  }

  /** Where row i starts: the bytes of the rows before it. */
  function RowAt(w: nat, i: nat): nat {
    if i == 0 then 0 else RowAt(w, i - 1) + Stride(w)
  }

  lemma {:induction false} RowAtIs(w: nat, i: nat)
    ensures RowAt(w, i) == i * Stride(w)
  {
    hide Stride;
    if i > 0 {
      RowAtIs(w, i - 1);
    }
  }

  /** Every row before the last one ends within it. */
  lemma {:induction false} RowFits(w: nat, i: nat, h: nat)
    requires i < h
    ensures RowAt(w, i + 1) == RowAt(w, i) + Stride(w) && RowAt(w, i) + Stride(w) <= RowAt(w, h)
    ensures Stride(w) == 3 * w + Padding(w)
  {
    hide Padding;
    if i < h - 1 {
      RowFits(w, i, h - 1);
    }
  }

  /** The stride is the least multiple of four a row of pixels fits in. */
  lemma StrideIsLeast(w: nat, n: nat)
    ensures Stride(w) % 4 == 0 && 3 * w <= Stride(w)
    ensures n % 4 == 0 && 3 * w <= n ==> Stride(w) <= n
  {
    RoundUp(w * 3, n);
  }

  lemma RoundUp(t: nat, n: nat)
    ensures (t + (4 - t % 4) % 4) % 4 == 0
    ensures n % 4 == 0 && t <= n ==> t + (4 - t % 4) % 4 <= n
  {
    var q, r := t / 4, t % 4;
    assert t == 4 * q + r;
    if r > 0 {
      assert t + (4 - r) % 4 == 4 * (q + 1);
    }
  }

  function PixelBytes(x: Pixel): (s: seq<byte>)
    ensures |s| == 3
  {
    [x.B, x.G, x.R]
  }

  function RowBytes(row: seq<Pixel>): (s: seq<byte>)
    ensures |s| == 3 * |row|
  {
    if row == [] then [] else RowBytes(row[..|row| - 1]) + PixelBytes(row[|row| - 1])
  }

  function Zeros(n: nat): (s: seq<byte>)
    ensures |s| == n
  {
    seq(n, i => 0)
  }

  /** A row brought to its stride. */
  function PaddedRow(row: seq<Pixel>, w: nat): seq<byte> {
    RowBytes(row) + Zeros(Padding(w))
  }

  function GridBytes(rows: Rows, w: nat): seq<byte> {
    if rows == [] then [] else GridBytes(rows[..|rows| - 1], w) + PaddedRow(rows[|rows| - 1], w)
  }

  lemma {:induction false} GridLength(rows: Rows, w: nat)
    requires Rect(rows, w)
    ensures |GridBytes(rows, w)| == RowAt(w, |rows|)
  {
    hide Padding, RowBytes;
    if rows != [] {
      var n := |rows| - 1;
      GridLength(rows[..n], w);
      assert |rows[n]| == w;
    }
  }

  lemma {:induction false} RowBytesAt(row: seq<Pixel>, j: nat)
    requires j < |row|
    ensures RowBytes(row)[3 * j..3 * j + 3] == PixelBytes(row[j])
  {
    var n := |row| - 1;
    if j < n {
      RowBytesAt(row[..n], j);
      assert RowBytes(row)[3 * j..3 * j + 3] == RowBytes(row[..n])[3 * j..3 * j + 3];
    }
  }

  /** Row i takes the bytes from its start on. */
  lemma {:induction false} GridRowAt(rows: Rows, w: nat, i: nat)
    requires Rect(rows, w) && i < |rows|
    ensures RowAt(w, i) + 3 * w <= |GridBytes(rows, w)| && |rows[i]| == w
    ensures GridBytes(rows, w)[RowAt(w, i)..RowAt(w, i) + 3 * w] == RowBytes(rows[i])
  {
    hide RowBytes, Padding, Stride, Rect, RowAt;
    var n := |rows| - 1;
    Wide(rows, w);
    var a, b := GridBytes(rows[..n], w), PaddedRow(rows[n], w);
    GridLength(rows[..n], w);
    assert GridBytes(rows, w) == a + b;
    if i < n {
      RowFits(w, i, n);
      GridRowAt(rows[..n], w, i);
      Slice(a, b, RowAt(w, i), 3 * w);
    } else {
      assert (a + b)[|a|..|a| + 3 * w] == b[..3 * w] == RowBytes(rows[n]);
    }
  }

  lemma Wide(rows: Rows, w: nat)
    requires Rect(rows, w) && rows != []
    ensures |rows[|rows| - 1]| == w && Rect(rows[..|rows| - 1], w)
  {
  }

  lemma Slice(a: seq<byte>, b: seq<byte>, k: nat, n: nat)
    requires k + n <= |a|
    ensures (a + b)[k..k + n] == a[k..k + n]
  {
  }

  /** Pixel (i, j) is at i * stride + 3 * j, its colours in the order blue, green, red. */
  lemma PixelAt(rows: Rows, w: nat, i: nat, j: nat)
    requires Rect(rows, w) && i < |rows| && j < w
    ensures |rows[i]| == w && RowAt(w, i) == i * Stride(w)
    ensures var k := RowAt(w, i) + 3 * j;
      k + 3 <= |GridBytes(rows, w)| && GridBytes(rows, w)[k..k + 3] == PixelBytes(rows[i][j])
  {
    hide RowBytes, GridBytes, Stride, RowAt;
    RowAtIs(w, i);
    GridRowAt(rows, w, i);
    RowBytesAt(rows[i], j);
    SliceOfSlice(GridBytes(rows, w), RowAt(w, i), 3 * w, 3 * j);
  }

  lemma SliceOfSlice(s: seq<byte>, k: nat, n: nat, d: nat)
    requires k + n <= |s| && d + 3 <= n
    ensures s[k..k + n][d..d + 3] == s[k + d..k + d + 3]
  {
    var a, b := s[k..k + n][d..d + 3], s[k + d..k + d + 3];
    assert |a| == |b| == 3;
    assert forall i :: 0 <= i < 3 ==> a[i] == s[k + d + i] == b[i];
  }

  /** A byte of the file, or what the matrix holds where the file has ended. */
  function ByteAt(s: seq<byte>, k: nat): byte {
    if k < |s| then s[k] else 0
  }

  /** The matrix that the loops of ReadRGBData find in the bytes; black from where they end. */
  function PixelsFrom(s: seq<byte>, w: nat, h: nat): (rows: Rows)
    ensures |rows| == h && Rect(rows, w)
  {
    seq(h, i requires 0 <= i < h => seq(w, j requires 0 <= j < w =>
      var k := RowAt(w, i) + 3 * j;
      Pixel(ByteAt(s, k), ByteAt(s, k + 1), ByteAt(s, k + 2))))
  }

  lemma PixelsFromAt(s: seq<byte>, w: nat, h: nat, i: nat, j: nat)
    requires i < h && j < w && RowAt(w, h) <= |s|
    ensures |PixelsFrom(s, w, h)[i]| == w && RowAt(w, i) + 3 * j + 3 <= |s|
    ensures PixelBytes(PixelsFrom(s, w, h)[i][j]) == s[RowAt(w, i) + 3 * j..RowAt(w, i) + 3 * j + 3]
  {
    hide Stride, RowAt, Padding;
    RowFits(w, i, h);
    assert |PixelsFrom(s, w, h)[i]| == w;
  }

  lemma PixelBytesInjective(x: Pixel, y: Pixel)
    requires PixelBytes(x) == PixelBytes(y)
    ensures x == y
  {
    assert PixelBytes(x)[0] == PixelBytes(y)[0] && PixelBytes(x)[1] == PixelBytes(y)[1];
    assert PixelBytes(x)[2] == PixelBytes(y)[2];
  }

  lemma PixelBack(rows: Rows, w: nat, x: seq<byte>, i: nat, j: nat)
    requires Rect(rows, w) && i < |rows| && j < w && |GridBytes(rows, w)| == RowAt(w, |rows|)
    ensures |rows[i]| == w && |PixelsFrom(GridBytes(rows, w) + x, w, |rows|)[i]| == w
    ensures PixelsFrom(GridBytes(rows, w) + x, w, |rows|)[i][j] == rows[i][j]
  {
    hide GridBytes, Stride, PixelsFrom, PixelBytes, RowAt;
    PixelAt(rows, w, i, j);
    Slice(GridBytes(rows, w), x, RowAt(w, i) + 3 * j, 3);
    PixelsFromAt(GridBytes(rows, w) + x, w, |rows|, i, j);
    PixelBytesInjective(PixelsFrom(GridBytes(rows, w) + x, w, |rows|)[i][j], rows[i][j]);
  }

  /** Reading the written pixels gives the matrix back, whatever follows them. */
  lemma PixelsRoundTrip(rows: Rows, w: nat, x: seq<byte>)
    requires Rect(rows, w)
    ensures |GridBytes(rows, w)| == RowAt(w, |rows|)
    ensures PixelsFrom(GridBytes(rows, w) + x, w, |rows|) == rows
  {
    hide GridBytes, Stride, PixelsFrom, RowAt;
    GridLength(rows, w);
    var back := PixelsFrom(GridBytes(rows, w) + x, w, |rows|);
    forall i | 0 <= i < |rows| ensures back[i] == rows[i] {
      forall j | 0 <= j < w ensures back[i][j] == rows[i][j] {
        PixelBack(rows, w, x, i, j);
      }
    }
  }

  // ----- a bitmap file

  /** What WriteBmp puts into a file. */
  function FileBytes(b: BmpHeader, d: DibHeader, rows: Rows): seq<byte> {
    BmpBytes(b) + DibBytes(d) + GridBytes(rows, d.width)
  }

  /** What is left of the bytes behind the first k. */
  function Drop(s: seq<byte>, k: nat): seq<byte> {
    if k <= |s| then s[k..] else []
  }

  lemma DropTwice(s: seq<byte>, i: nat, j: nat)
    ensures Drop(Drop(s, i), j) == Drop(s, i + j)
  {
  }

  lemma DropNothing(s: seq<byte>)
    ensures Drop(s, 0) == s
  {
  }

  /** The first k bytes, or as many as there are. */
  function UpTo(s: seq<byte>, k: nat): (r: seq<byte>)
    ensures |r| <= k
  {
    if k <= |s| then s[..k] else s
  }

  /** What is read and what is left are the bytes there were; fewer than k are read only at the end. */
  lemma ReadAndLeft(s: seq<byte>, k: nat)
    ensures UpTo(s, k) + Drop(s, k) == s
    ensures |UpTo(s, k)| == k || (|UpTo(s, k)| < k && Drop(s, k) == [])
  {
  }

  /** The bytes of a structure after some have been read over its beginning. */
  function Overlaid(s: seq<byte>, bytes: seq<byte>): (r: seq<byte>)
    requires |bytes| <= |s|
    ensures |r| == |s|
  {
    bytes + s[|bytes|..]
  }

  /** The headers as they are after reading the beginning of a file. */
  function BmpRead(b: BmpHeader, s: seq<byte>): BmpHeader {
    BmpFrom(Overlaid(BmpBytes(b), UpTo(s, BMP_HEADER_SIZE)))
  }

  function DibRead(d: DibHeader, s: seq<byte>): DibHeader {
    DibFrom(Overlaid(DibBytes(d), UpTo(Drop(s, BMP_HEADER_SIZE), DIB_HEADER_SIZE)))
  }

  /** Bytes written at pos over whatever the file had there. */
  function Overwritten(s: seq<byte>, pos: nat, bytes: seq<byte>): (r: seq<byte>)
    requires pos <= |s|
    ensures pos + |bytes| <= |r|
  {
    s[..pos] + bytes + if pos + |bytes| < |s| then s[pos + |bytes|..] else []
  }

  lemma OverwriteThen(s: seq<byte>, pos: nat, a: seq<byte>, b: seq<byte>)
    requires pos <= |s|
    ensures Overwritten(Overwritten(s, pos, a), pos + |a|, b) == Overwritten(s, pos, a + b)
  {
    var t := Overwritten(s, pos, a);
    assert t[..pos + |a|] == s[..pos] + a;
    if pos + |a| + |b| < |s| {
      assert t[pos + |a| + |b|..] == s[pos + |a| + |b|..];
    }
    assert s[..pos] + a + b == s[..pos] + (a + b);
  }

  lemma OverwriteNothing(s: seq<byte>, pos: nat)
    requires pos <= |s|
    ensures Overwritten(s, pos, []) == s
  {
    assert s[..pos] + [] + s[pos..] == s;
  }

  /** A written file reads back, whatever the headers were before: both headers, every pixel, and
      nothing of what follows. */
  lemma FileRoundTrip(b: BmpHeader, d: DibHeader, rows: Rows, x: seq<byte>, b': BmpHeader, d': DibHeader)
    requires BmpFits(b) && DibFits(d) && |rows| == d.height && Rect(rows, d.width)
    ensures var s := FileBytes(b, d, rows) + x;
      && BmpRead(b', s) == b && DibRead(d', s) == d
      && |FileBytes(b, d, rows)| == BMP_HEADER_SIZE + DIB_HEADER_SIZE + RowAt(d.width, d.height)
      && PixelsFrom(Drop(s, BMP_HEADER_SIZE + DIB_HEADER_SIZE), d.width, d.height) == rows
      && Drop(s, BMP_HEADER_SIZE + DIB_HEADER_SIZE + RowAt(d.width, d.height)) == x
  {
    BmpRoundTrip(b);
    DibRoundTrip(d);
    PixelsRoundTrip(rows, d.width, x);
    hide BmpBytes, DibBytes, BmpFrom, DibFrom, GridBytes, RowAt, PixelsFrom, Rect;
    Sections(BmpBytes(b), DibBytes(d), GridBytes(rows, d.width), x);
    WholeOverlay(BmpBytes(b'), BmpBytes(b));
    WholeOverlay(DibBytes(d'), DibBytes(d));
  }

  lemma WholeOverlay(s: seq<byte>, t: seq<byte>)
    requires |s| == |t|
    ensures Overlaid(s, t) == t
  {
  }

  lemma Sections(b: seq<byte>, d: seq<byte>, g: seq<byte>, x: seq<byte>)
    requires |b| == BMP_HEADER_SIZE && |d| == DIB_HEADER_SIZE
    ensures var s := b + d + g + x;
      && UpTo(s, BMP_HEADER_SIZE) == b && UpTo(Drop(s, BMP_HEADER_SIZE), DIB_HEADER_SIZE) == d
      && Drop(s, BMP_HEADER_SIZE + DIB_HEADER_SIZE) == g + x
      && Drop(s, BMP_HEADER_SIZE + DIB_HEADER_SIZE + |g|) == x
  {
  }

  /** The two bytes at k hold v, least significant first. */
  predicate HasTwo(s: seq<byte>, k: nat, v: nat) {
    k + 2 <= |s| && s[k] == v % 256 && s[k + 1] == v / 256 % 256
  }

  /** The four bytes at k hold v, least significant first. */
  predicate HasFour(s: seq<byte>, k: nat, v: nat) {
    && k + 4 <= |s| && s[k] == v % 256 && s[k + 1] == v / 256 % 256
    && s[k + 2] == v / 0x1_0000 % 256 && s[k + 3] == v / 0x100_0000 % 256
  }

  lemma TwoBytes(s: seq<byte>, k: nat, v: nat)
    requires k + 2 <= |s| && s[k..k + 2] == LittleEndian(v, 2)
    ensures HasTwo(s, k, v)
  {
    Pow256Values();
    hide LittleEndian, Pow256;
    LittleEndianAt(v, 2, 0);
    LittleEndianAt(v, 2, 1);
    assert s[k..k + 2][0] == s[k] && s[k..k + 2][1] == s[k + 1];
  }

  lemma FourBytes(s: seq<byte>, k: nat, v: nat)
    requires k + 4 <= |s| && s[k..k + 4] == LittleEndian(v, 4)
    ensures HasFour(s, k, v)
  {
    Pow256Values();
    hide LittleEndian, Pow256;
    LittleEndianAt(v, 4, 0);
    LittleEndianAt(v, 4, 1);
    LittleEndianAt(v, 4, 2);
    LittleEndianAt(v, 4, 3);
    assert s[k..k + 4][0] == s[k] && s[k..k + 4][1] == s[k + 1] && s[k..k + 4][2] == s[k + 2] && s[k..k + 4][3] == s[k + 3];
  }

  /** Where the fields of the file header are. */
  lemma BmpFields(h: BmpHeader)
    ensures var s := BmpBytes(h);
      && HasTwo(s, 0, h.signature) && HasFour(s, 2, h.size) && HasTwo(s, 6, h.reserved1) && HasTwo(s, 8, h.reserved2)
      && HasFour(s, 10, h.offset)
  {
    hide LittleEndian, HasTwo, HasFour;
    var s := BmpBytes(h);
    TwoBytes(s, 0, h.signature);
    FourBytes(s, 2, h.size);
    TwoBytes(s, 6, h.reserved1);
    TwoBytes(s, 8, h.reserved2);
    FourBytes(s, 10, h.offset);
  }

  /** Where the fields of the image header are. */
  lemma DibFields(h: DibHeader)
    ensures var s := DibBytes(h);
      && HasFour(s, 0, h.headerSize) && HasFour(s, 4, h.width) && HasFour(s, 8, h.height)
      && HasTwo(s, 12, h.colorPlanesNum) && HasTwo(s, 14, h.bitsPerPixel) && HasFour(s, 16, h.compression)
      && HasFour(s, 20, h.imageSize) && HasFour(s, 24, h.horRes) && HasFour(s, 28, h.verRes)
      && HasFour(s, 32, h.colorsNum) && HasFour(s, 36, h.importantColorsNum)
  {
    hide LittleEndian, HasTwo, HasFour;
    var s := DibBytes(h);
    FourBytes(s, 0, h.headerSize);
    FourBytes(s, 4, h.width);
    FourBytes(s, 8, h.height);
    TwoBytes(s, 12, h.colorPlanesNum);
    TwoBytes(s, 14, h.bitsPerPixel);
    FourBytes(s, 16, h.compression);
    FourBytes(s, 20, h.imageSize);
    FourBytes(s, 24, h.horRes);
    FourBytes(s, 28, h.verRes);
    FourBytes(s, 32, h.colorsNum);
    FourBytes(s, 36, h.importantColorsNum);
  }

  /** The bytes between the last pixel of row i and the next row are zero. */
  lemma PaddingIsZero(rows: Rows, w: nat, i: nat, k: nat)
    requires Rect(rows, w) && i < |rows| && 3 * w <= k < Stride(w)
    ensures i * Stride(w) + k < |GridBytes(rows, w)| && GridBytes(rows, w)[i * Stride(w) + k] == 0
  {
    hide GridBytes, Stride, RowAt;
    RowAtIs(w, i);
    PaddingAt(rows, w, i, k);
  }

  lemma {:induction false} PaddingAt(rows: Rows, w: nat, i: nat, k: nat)
    requires Rect(rows, w) && i < |rows| && 3 * w <= k < Stride(w)
    ensures RowAt(w, i) + k < |GridBytes(rows, w)| && GridBytes(rows, w)[RowAt(w, i) + k] == 0
  {
    hide RowBytes, Rect, RowAt;
    var n := |rows| - 1;
    Wide(rows, w);
    GridLength(rows[..n], w);
    var a, b := GridBytes(rows[..n], w), PaddedRow(rows[n], w);
    if i < n {
      RowFits(w, i, n);
      PaddingAt(rows[..n], w, i, k);
    } else {
      assert b[k] == Zeros(Padding(w))[k - 3 * w] == 0;
    }
  }

  /** A written file in numbers: signature, size and offset, the dimensions, the bits per pixel and the
      size of the image at their places, and pixel (i, j) at 54 + i * stride + 3j. */
  lemma FileFields(b: BmpHeader, d: DibHeader, rows: Rows, i: nat, j: nat)
    requires |rows| == d.height && Rect(rows, d.width) && i < d.height && j < d.width
    ensures var s := FileBytes(b, d, rows);
      && HasTwo(s, 0, b.signature) && HasFour(s, 2, b.size) && HasFour(s, 10, b.offset)
      && HasFour(s, 18, d.width) && HasFour(s, 22, d.height) && HasTwo(s, 28, d.bitsPerPixel) && HasFour(s, 34, d.imageSize)
    ensures RowAt(d.width, i) == i * Stride(d.width) && j < |rows[i]|
    ensures HasPixel(FileBytes(b, d, rows), 54 + RowAt(d.width, i) + 3 * j, rows[i][j])
  {
    hide HasTwo, HasFour, HasPixel, BmpBytes, DibBytes, GridBytes, FileBytes, Stride, RowAt, Rect;
    HeadersAt(b, d, GridBytes(rows, d.width));
    PixelAt(rows, d.width, i, j);
    PixelBehind(b, d, rows, RowAt(d.width, i) + 3 * j, rows[i][j]);
    FileIs(b, d, rows);
  }

  /** The three bytes at k are the pixel's blue, green and red. */
  predicate HasPixel(s: seq<byte>, k: nat, x: Pixel) {
    k + 3 <= |s| && s[k] == x.B && s[k + 1] == x.G && s[k + 2] == x.R
  }

  lemma FileIs(b: BmpHeader, d: DibHeader, rows: Rows)
    ensures FileBytes(b, d, rows) == BmpBytes(b) + DibBytes(d) + GridBytes(rows, d.width)
  {
  }

  lemma HeadersAt(b: BmpHeader, d: DibHeader, g: seq<byte>)
    ensures var s := BmpBytes(b) + DibBytes(d) + g;
      && HasTwo(s, 0, b.signature) && HasFour(s, 2, b.size) && HasFour(s, 10, b.offset)
      && HasFour(s, 18, d.width) && HasFour(s, 22, d.height) && HasTwo(s, 28, d.bitsPerPixel) && HasFour(s, 34, d.imageSize)
  {
    BmpFields(b);
    DibFields(d);
    hide BmpBytes, DibBytes;
    var x, y := BmpBytes(b), DibBytes(d);
    var s := x + y + g;
    assert forall n :: 0 <= n < 14 ==> s[n] == x[n];
    assert forall n :: 0 <= n < 40 ==> s[14 + n] == y[n];
  }

  lemma PixelBehind(b: BmpHeader, d: DibHeader, rows: Rows, k: nat, x: Pixel)
    requires var g := GridBytes(rows, d.width); k + 3 <= |g| && g[k..k + 3] == PixelBytes(x)
    ensures HasPixel(BmpBytes(b) + DibBytes(d) + GridBytes(rows, d.width), 54 + k, x)
  {
    hide BmpBytes, DibBytes, GridBytes;
    var g := GridBytes(rows, d.width);
    assert g[k..k + 3] == [g[k], g[k + 1], g[k + 2]];
  }

  /** What is found for pixel (i, j): the three bytes at i * stride + 3j as blue, green and red, and
      zero for each of them that lies behind the end. */
  lemma PixelFound(s: seq<byte>, w: nat, h: nat, i: nat, j: nat)
    requires i < h && j < w
    ensures |PixelsFrom(s, w, h)[i]| == w && RowAt(w, i) == i * Stride(w)
    ensures var x, k := PixelsFrom(s, w, h)[i][j], RowAt(w, i) + 3 * j;
      && x.B == (if k < |s| then s[k] else 0)
      && x.G == (if k + 1 < |s| then s[k + 1] else 0)
      && x.R == if k + 2 < |s| then s[k + 2] else 0
  {
    hide Stride, RowAt;
    RowAtIs(w, i);
    assert |PixelsFrom(s, w, h)[i]| == w;
  }

  /** A header after a short read: the bytes read, and behind them those it had. */
  lemma OverlaidAt(s: seq<byte>, bytes: seq<byte>, k: nat)
    requires |bytes| <= |s| && k < |s|
    ensures Overlaid(s, bytes)[k] == if k < |bytes| then bytes[k] else s[k]
  {
  }

  /** What is written takes its place, grows the file where it must, and leaves every other byte. */
  lemma OverwrittenAt(s: seq<byte>, pos: nat, bytes: seq<byte>, k: nat)
    requires pos <= |s|
    ensures |Overwritten(s, pos, bytes)| == if pos + |bytes| < |s| then |s| else pos + |bytes|
    ensures k < |Overwritten(s, pos, bytes)| ==>
              Overwritten(s, pos, bytes)[k] == if pos <= k < pos + |bytes| then bytes[k - pos] else s[k]
  {
  }

  datatype ReadResult = Read | NotOpen | NotTrueColour | TooLong

  /** A stream over one bitmap file; file, pos and failed stand for the open file, the position in it and
      the stream's state. A failed stream neither reads nor writes. */
  class BmpStream {
    var isOpen: bool
    var failed: bool
    var file: seq<byte>
    var pos: nat
    var bmpHeader: BmpHeader
    var dibHeader: DibHeader
    var pixelArray: Rows

    ghost predicate Valid()
      reads this`pos, this`file
    {
      pos <= |file|
    }

    /** What can still be read. */
    ghost function Rest(): seq<byte>
      requires Valid()
      reads this`failed, this`pos, this`file
    {
      if failed then [] else file[pos..]
    }

    constructor (contents: seq<byte>, b: BmpHeader, d: DibHeader)
      ensures Valid() && isOpen && !failed && file == contents && pos == 0
      ensures bmpHeader == b && dibHeader == d && pixelArray == []
    {
      isOpen, failed, file, pos, bmpHeader, dibHeader, pixelArray := true, false, contents, 0, b, d, [];
    }

    /** file_.seekg(0). */
    method Rewind()
      requires Valid()
      modifies this`pos
      ensures Valid() && Rest() == if failed then [] else file
      ensures pos == if failed then old(pos) else 0
    {
      if !failed {
        pos := 0;
      }
      assert file[0..] == file;
    }

    /** file_.read: as many of n bytes as there are. */
    method ReadBytes(n: nat) returns (bytes: seq<byte>)
      requires Valid()
      modifies this`pos, this`failed
      ensures Valid() && bytes == UpTo(old(Rest()), n) && Rest() == Drop(old(Rest()), n)
    {
      if failed {
        return [];
      }
      if n <= |file| - pos {
        bytes := file[pos..pos + n];
        pos := pos + n;
      } else {
        bytes := file[pos..];
        pos, failed := |file|, true;
      }
    }

    /** file_.ignore. */
    method Ignore(n: nat)
      requires Valid()
      modifies this`pos
      ensures Valid() && Rest() == Drop(old(Rest()), n)
    {
      if !failed {
        pos := if n <= |file| - pos then pos + n else |file|;
      }
    }

    /** file_.write. */
    method Write(bytes: seq<byte>)
      requires Valid()
      modifies this`file, this`pos
      ensures Valid() && (failed ==> file == old(file) && pos == old(pos))
      ensures !failed ==> file == Overwritten(old(file), old(pos), bytes) && pos == old(pos) + |bytes|
    {
      if !failed {
        file, pos := Overwritten(file, pos, bytes), pos + |bytes|;
      }
    }

    /** One row of the loops of WriteRGBData, with its padding. */
    method WriteRow(image: Image, i: nat)
      requires !failed && Valid() && image.Valid() && i < image.height && dibHeader.width == image.width
      modifies this`file, this`pos
      ensures Valid() && i < |image.pixelMatrix|
      ensures file == Overwritten(old(file), old(pos), PaddedRow(image.pixelMatrix[i], image.width))
      ensures pos == old(pos) + |PaddedRow(image.pixelMatrix[i], image.width)|
    {
      hide RowBytes, Overwritten, Padding;
      ghost var s, start, row := file, pos, image.pixelMatrix[i];
      var padding := Padding(dibHeader.width);
      OverwriteNothing(s, start);
      NoPixels();
      assert row[..0] == [];
      for j := 0 to dibHeader.width
        invariant Valid() && pos == start + |RowBytes(row[..j])|
        invariant file == Overwritten(s, start, RowBytes(row[..j]))
      {
        var pixel := image.GetPixel(i, j);
        RowStep(row, j);
        OverwriteThen(s, start, RowBytes(row[..j]), PixelBytes(pixel));
        Write(PixelBytes(pixel));
      }
      assert row[..|row|] == row;
      OverwriteThen(s, start, RowBytes(row), Zeros(padding));
      if padding > 0 {
        Write(Zeros(padding));
      } else {
        assert RowBytes(row) + Zeros(padding) == RowBytes(row);
      }
    }

    /** Every row of the matrix, each brought to its stride. */
    method WriteRGBData(image: Image)
      requires image.Valid() && dibHeader.width == image.width && dibHeader.height == image.height && Valid()
      modifies this`file, this`pos
      ensures Valid() && (failed ==> file == old(file))
      ensures !failed ==> file == Overwritten(old(file), old(pos), GridBytes(image.pixelMatrix, image.width))
    {
      if failed {
        return;
      }
      hide GridBytes, PaddedRow, Overwritten, RowBytes, Padding, Rect;
      ghost var s, start, rows, w := file, pos, image.pixelMatrix, image.width;
      OverwriteNothing(s, start);
      NoRows(w);
      assert rows[..0] == [];
      for i := 0 to dibHeader.height
        invariant Valid() && pos == start + |GridBytes(rows[..i], w)|
        invariant file == Overwritten(s, start, GridBytes(rows[..i], w))
      {
        GridStep(rows, w, i);
        OverwriteThen(s, start, GridBytes(rows[..i], w), PaddedRow(rows[i], w));
        WriteRow(image, i);
      }
      assert rows[..|rows|] == rows;
    }

    /** One row of the loops of ReadRGBData; its padding is skipped. */
    method ReadRow(i: nat, padding: nat, ghost s: seq<byte>, ghost p: Picture, ghost q: Picture)
      requires Valid() && i < dibHeader.height && padding == Padding(dibHeader.width)
      requires Rest() == Drop(s, RowAt(dibHeader.width, i))
      requires Reading(p, q, s, dibHeader.width, dibHeader.height)
      requires RowsDone(Picture(dibHeader.width, dibHeader.height, pixelArray), p, q, i)
      modifies this`pos, this`failed, this`pixelArray
      ensures Valid() && Rest() == Drop(s, RowAt(dibHeader.width, i + 1))
      ensures RowsDone(Picture(dibHeader.width, dibHeader.height, pixelArray), p, q, i + 1)
    {
      hide RowsDone, CellsDone, SameSize, Rect, PixelsFrom, Stride, Padding, RowAt, Drop, UpTo, Reading, BmpStream.Rest;
      var width := dibHeader.width;
      ghost var height, start := dibHeader.height, RowAt(width, i);
      ReadingSizes(p, q, s, width, height);
      RowBegins(Picture(width, height, pixelArray), p, q, i);
      for j := 0 to width
        invariant Valid() && Rest() == Drop(s, start + 3 * j)
        invariant CellsDone(Picture(width, height, pixelArray), p, q, i, j)
      {
        NextCell(Picture(width, height, pixelArray), p, q, i, j);
        CellSet(Picture(width, height, pixelArray), p, q, i, j);
        DropTwice(s, start + 3 * j, 3);
        var bytes := ReadBytes(3);
        PixelRead(p, q, s, width, height, i, j);
        pixelArray := pixelArray[i := pixelArray[i][j := ReadOver(pixelArray[i][j], bytes)]];
      }
      RowEnds(Picture(width, height, pixelArray), p, q, i);
      RowFits(width, i, height);
      DropTwice(s, start + 3 * width, padding);
      Ignore(padding);
    }

    /** The loops of ReadRGBData over the new matrix. */
    method ReadRows()
      requires Valid() && pixelArray == BlackRows(dibHeader.width, dibHeader.height)
      modifies this`pos, this`failed, this`pixelArray
      ensures Valid() && Rest() == Drop(old(Rest()), RowAt(dibHeader.width, dibHeader.height))
      ensures pixelArray == PixelsFrom(old(Rest()), dibHeader.width, dibHeader.height)
    {
      hide RowsDone, Rect, PixelsFrom, Padding, RowAt, Drop, Reading, BlackRows, BmpStream.Rest;
      ghost var s, width, height := Rest(), dibHeader.width, dibHeader.height;
      var padding := Padding(dibHeader.width);
      ghost var p, q := Picture(width, height, pixelArray), Picture(width, height, PixelsFrom(s, width, height));
      ReadingStarts(s, width, height);
      for i := 0 to dibHeader.height
        invariant Valid() && Rest() == Drop(s, RowAt(width, i))
        invariant RowsDone(Picture(width, height, pixelArray), p, q, i)
      {
        ReadRow(i, padding, s, p, q);
      }
      AllDone(Picture(width, height, pixelArray), p, q);
    }

    /** Every pixel into its place. False for dimensions that are negative as the source's signed ones,
        of which no vector can be made. */
    method ReadRGBData() returns (ok: bool)
      requires Valid()
      modifies this`pos, this`failed, this`pixelArray
      ensures Valid() && ok == (dibHeader.width < TWO31 && dibHeader.height < TWO31)
      ensures !ok ==> pixelArray == []
      ensures ok ==> pixelArray == PixelsFrom(old(Rest()), dibHeader.width, dibHeader.height)
      ensures ok ==> Rest() == Drop(old(Rest()), RowAt(dibHeader.width, dibHeader.height))
    {
      hide PixelsFrom, RowAt, Drop, BlackRows, BmpStream.Rest;
      pixelArray := [];
      if dibHeader.width >= TWO31 || dibHeader.height >= TWO31 {
        return false;
      }
      pixelArray := BlackRows(dibHeader.width, dibHeader.height);
      ReadRows();
      ok := true;
    }

    /** A wrong signature is reported and passed over; a wrong number of bits or a dimension too large
        for a vector stops the reading. What a short file lacks stays as it was. */
    method ReadBmp() returns (result: ReadResult, warned: bool)
      requires Valid()
      modifies this`pos, this`failed, this`bmpHeader, this`dibHeader, this`pixelArray
      ensures Valid() && (result == NotOpen <==> !isOpen)
      ensures !isOpen ==> pixelArray == old(pixelArray)
      ensures isOpen ==>
        && bmpHeader == BmpRead(old(bmpHeader), if old(failed) then [] else file)
        && dibHeader == DibRead(old(dibHeader), if old(failed) then [] else file)
        && warned == (bmpHeader.signature != BMP_SIGNATURE)
      ensures isOpen && dibHeader.bitsPerPixel != DIB_BITS_PER_PIXEL ==>
        result == NotTrueColour && pixelArray == old(pixelArray)
      ensures isOpen && dibHeader.bitsPerPixel == DIB_BITS_PER_PIXEL ==>
        result == if dibHeader.width < TWO31 && dibHeader.height < TWO31 then Read else TooLong
      ensures result == TooLong ==> pixelArray == []
      ensures result == Read ==>
        && pixelArray == PixelsFrom(Drop(if old(failed) then [] else file, BMP_HEADER_SIZE + DIB_HEADER_SIZE),
                                    dibHeader.width, dibHeader.height)
        && Rest() == Drop(if old(failed) then [] else file,
                          BMP_HEADER_SIZE + DIB_HEADER_SIZE + RowAt(dibHeader.width, dibHeader.height))
    {
      hide BmpFrom, DibFrom, BmpBytes, DibBytes, PixelsFrom, RowAt, Drop, UpTo, Overlaid, BmpStream.Rest;
      if !isOpen {
        return NotOpen, false;
      }
      Rewind();
      ghost var s := Rest();
      var bytes := ReadBytes(BMP_HEADER_SIZE);
      bmpHeader := BmpFrom(Overlaid(BmpBytes(bmpHeader), bytes));
      warned := bmpHeader.signature != BMP_SIGNATURE;
      bytes := ReadBytes(DIB_HEADER_SIZE);
      dibHeader := DibFrom(Overlaid(DibBytes(dibHeader), bytes));
      DropTwice(s, BMP_HEADER_SIZE, DIB_HEADER_SIZE);
      if dibHeader.bitsPerPixel != DIB_BITS_PER_PIXEL {
        return NotTrueColour, warned;
      }
      var ok := ReadRGBData();
      DropTwice(s, BMP_HEADER_SIZE + DIB_HEADER_SIZE, RowAt(dibHeader.width, dibHeader.height));
      result := if ok then Read else TooLong;
    }

    /** The headers take over the size of the image; the rest of the file stays behind the pixels. */
    method WriteBmp(image: Image) returns (ok: bool)
      requires Valid() && image.Valid() && image.width < TWO31 && image.height < TWO31
      modifies this`file, this`pos, this`bmpHeader, this`dibHeader
      ensures Valid() && ok == isOpen
      ensures !isOpen ==> file == old(file) && bmpHeader == old(bmpHeader) && dibHeader == old(dibHeader)
      ensures isOpen ==> dibHeader == old(dibHeader).(width := image.width, height := image.height,
                                                      imageSize := (image.width * image.height) % TWO32)
      ensures isOpen ==> bmpHeader == old(bmpHeader).(
        size := (old(bmpHeader.size) - old(dibHeader.imageSize) + dibHeader.imageSize) % TWO32)
      ensures isOpen && !failed ==> file == Overwritten(old(file), 0, FileBytes(bmpHeader, dibHeader, image.pixelMatrix))
      ensures isOpen && failed ==> file == old(file)
    {
      hide BmpBytes, DibBytes, GridBytes, Overwritten;
      if !isOpen {
        return false;
      }
      ghost var s := file;
      Rewind();
      var n := (image.width * image.height) % TWO32;
      var size := (bmpHeader.size - dibHeader.imageSize) % TWO32;
      Resize(bmpHeader.size, dibHeader.imageSize, n);
      dibHeader := dibHeader.(width := image.width, height := image.height, imageSize := n);
      bmpHeader := bmpHeader.(size := (size + n) % TWO32);
      Write(BmpBytes(bmpHeader));
      Write(DibBytes(dibHeader));
      OverwriteThen(s, 0, BmpBytes(bmpHeader), DibBytes(dibHeader));
      WriteRGBData(image);
      OverwriteThen(s, 0, BmpBytes(bmpHeader) + DibBytes(dibHeader), GridBytes(image.pixelMatrix, image.width));
      ok := true;
    }
  }

  lemma Resize(a: int, b: int, n: int)
    ensures ((a - b) % TWO32 + n) % TWO32 == (a - b + n) % TWO32
  {
    var q := (a - b) / TWO32;
    assert a - b + n == (a - b) % TWO32 + n + TWO32 * q;
  }

  /** The matrix that ReadRGBData starts from. */
  function BlackRows(w: nat, h: nat): (rows: Rows)
    ensures |rows| == h && Rect(rows, w)
    ensures forall i, j :: 0 <= i < h && 0 <= j < w ==> rows[i][j] == BLACK
  {
    seq(h, i => seq(w, j => BLACK))
  }

  /** From the new matrix p to q, what is found in s. */
  ghost predicate Reading(p: Picture, q: Picture, s: seq<byte>, w: nat, h: nat) {
    p == Picture(w, h, BlackRows(w, h)) && q == Picture(w, h, PixelsFrom(s, w, h))
  }

  lemma ReadingSizes(p: Picture, q: Picture, s: seq<byte>, w: nat, h: nat)
    requires Reading(p, q, s, w, h)
    ensures SameSize(p, q) && p.width == w && p.height == h
  {
  }

  lemma ReadingStarts(s: seq<byte>, w: nat, h: nat)
    ensures var p, q := Picture(w, h, BlackRows(w, h)), Picture(w, h, PixelsFrom(s, w, h));
      Reading(p, q, s, w, h) && RowsDone(p, p, q, 0) && Drop(s, RowAt(w, 0)) == s
  {
    var p, q := Picture(w, h, BlackRows(w, h)), Picture(w, h, PixelsFrom(s, w, h));
    assert SameSize(p, q);
    NothingDone(p, q);
    DropNothing(s);
  }

  /** A pixel after some bytes have been read over its beginning. */
  function ReadOver(x: Pixel, bytes: seq<byte>): Pixel
    requires |bytes| <= 3
  {
    Pixel(if |bytes| > 0 then bytes[0] else x.B, if |bytes| > 1 then bytes[1] else x.G,
          if |bytes| > 2 then bytes[2] else x.R)
  }

  lemma PixelRead(p: Picture, q: Picture, s: seq<byte>, w: nat, h: nat, i: nat, j: nat)
    requires Reading(p, q, s, w, h) && i < h && j < w
    ensures i < |p.rows| && j < |p.rows[i]| && i < |q.rows| && j < |q.rows[i]|
    ensures ReadOver(p.rows[i][j], UpTo(Drop(s, RowAt(w, i) + 3 * j), 3)) == q.rows[i][j]
  {
    hide RowAt;
    assert |PixelsFrom(s, w, h)[i]| == w && |BlackRows(w, h)[i]| == w;
    ThreeBytes(s, RowAt(w, i) + 3 * j);
  }

  lemma ThreeBytes(s: seq<byte>, k: nat)
    ensures ReadOver(BLACK, UpTo(Drop(s, k), 3)) == Pixel(ByteAt(s, k), ByteAt(s, k + 1), ByteAt(s, k + 2))
  {
  }

  /** What one stream writes into its file, another stream over that file reads: the dimensions and
      every pixel. */
  method WriteThenRead(image: Image, writer: BmpStream, reader: BmpStream) returns (result: ReadResult)
    requires image.Valid() && image.width < TWO31 && image.height < TWO31
    requires writer.Valid() && writer.isOpen && !writer.failed
    requires writer != reader && reader.isOpen && !reader.failed
    requires BmpFits(writer.bmpHeader) && DibFits(writer.dibHeader) && writer.dibHeader.bitsPerPixel == DIB_BITS_PER_PIXEL
    modifies writer, reader
    ensures result == Read && reader.pixelArray == image.pixelMatrix
    ensures reader.dibHeader.width == image.width && reader.dibHeader.height == image.height
    ensures reader.bmpHeader == writer.bmpHeader && reader.dibHeader == writer.dibHeader
  {
    hide FileBytes, BmpRead, DibRead, PixelsFrom, RowAt, Drop;
    var ok := writer.WriteBmp(image);
    var b, d := writer.bmpHeader, writer.dibHeader;
    ghost var x := writer.file[|FileBytes(b, d, image.pixelMatrix)|..];
    assert writer.file == FileBytes(b, d, image.pixelMatrix) + x;
    FileRoundTrip(b, d, image.pixelMatrix, x, reader.bmpHeader, reader.dibHeader);
    reader.file, reader.pos := writer.file, 0;
    var warned;
    result, warned := reader.ReadBmp();
  }

  lemma NoRows(w: nat)
    ensures GridBytes([], w) == []
  {
  }

  lemma NoPixels()
    ensures RowBytes([]) == []
  {
  }

  lemma GridStep(rows: Rows, w: nat, i: nat)
    requires i < |rows|
    ensures GridBytes(rows[..i + 1], w) == GridBytes(rows[..i], w) + PaddedRow(rows[i], w)
  {
    assert rows[..i + 1][..i] == rows[..i];
  }

  lemma RowStep(row: seq<Pixel>, j: nat)
    requires j < |row|
    ensures RowBytes(row[..j + 1]) == RowBytes(row[..j]) + PixelBytes(row[j])
  {
    assert row[..j + 1][..j] == row[..j];
  }
}
