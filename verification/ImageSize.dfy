/** The size of an image in client memory (helpers/glsize.hpp), against the addresses that section
    3.6.4 of the OpenGL 2.1 specification gives for unpacking pixel rectangles. */
module ImageSize {

  import opened Bytes
  import opened Rounding

  // ----- bit operations on natural numbers -----

  function BitAnd(a: nat, b: nat): nat {
    if a == 0 || b == 0 then 0
    else 2 * BitAnd(a / 2, b / 2) + if a % 2 == 1 && b % 2 == 1 then 1 else 0
  }

  /** a with the bits of mask cleared: a & ~mask. */
  function Clear(a: nat, mask: nat): nat {
    if a == 0 then 0
    else 2 * Clear(a / 2, mask / 2) + if a % 2 == 1 && mask % 2 == 0 then 1 else 0
  }

  /** For zero the C expression is 0 & -1. */
  predicate IsPot(x: nat) {
    x == 0 || BitAnd(x, x - 1) == 0
  }

  function Align(x: nat, y: nat): nat
    requires y > 0
  {
    Clear(x + (y - 1), y - 1)
  }

  lemma {:induction false} BitAndSelf(x: nat)
    ensures BitAnd(x, x) == x
  {
    if x > 0 {
      BitAndSelf(x / 2);
    }
  }

  ghost predicate IsPower(x: nat) {
    exists k: nat :: x == Pow2(k)
  }

  lemma EvenPower(x: nat)
    requires x > 1 && x % 2 == 0
    ensures IsPower(x) <==> IsPower(x / 2)
  {
    if IsPower(x) {
      var k: nat :| x == Pow2(k);
      assert k > 0;
      assert x / 2 == Pow2(k - 1);
    }
    if IsPower(x / 2) {
      var k: nat :| x / 2 == Pow2(k);
      assert x == Pow2(k + 1);
    }
  }

  /** The bit trick recognizes the powers of two, and zero. */
  lemma {:induction false} IsPotIff(x: nat)
    ensures IsPot(x) <==> x == 0 || IsPower(x)
    decreases x
  {
    if x > 1 {
      if x % 2 == 0 {
        IsPotIff(x / 2);
        EvenPower(x);
        assert BitAnd(x, x - 1) == 2 * BitAnd(x / 2, x / 2 - 1);
      } else {
        BitAndSelf(x / 2);
        assert (x - 1) / 2 == x / 2;
        forall k: nat ensures x != Pow2(k) {
          assert k > 0 ==> Pow2(k) % 2 == 0;
        }
      }
    } else if x == 1 {
      assert x == Pow2(0);
    }
  }

  /** The greatest multiple of p up to a. */
  function Floor(a: nat, p: nat): nat
    requires p > 0
  {
    Times(a / p, p)
  }

  lemma FloorIs(a: nat, p: nat, q: nat)
    requires p > 0 && Times(q, p) <= a < Times(q + 1, p)
    ensures Floor(a, p) == Times(q, p)
  {
    hide Times;
    QuotientIs(a, p, q);
  }

  lemma FloorBounds(a: nat, p: nat) returns (q: nat)
    requires p > 0
    ensures Floor(a, p) == Times(q, p) && Times(q, p) <= a < Times(q + 1, p)
  {
    q := a / p;
    hide Times;
    DivBounds(a, p);
  }

  lemma FloorDouble(a: nat, p: nat)
    requires p > 0
    ensures Floor(a, 2 * p) == 2 * Floor(a / 2, p)
  {
    hide Times, Floor;
    var q := FloorBounds(a / 2, p);
    TimesDouble(q, p);
    TimesDouble(q + 1, p);
    FloorIs(a, 2 * p, q);
  }

  /** Clearing the low bits rounds down. */
  lemma {:induction false} ClearMeaning(a: nat, k: nat)
    ensures Clear(a, Pow2(k) - 1) == Floor(a, Pow2(k))
    decreases k
  {
    if k == 0 {
      ClearNone(a);
      TimesUnits(a);
    } else {
      var p := Pow2(k - 1);
      assert Pow2(k) == 2 * p;
      hide *;
      ClearMeaning(a / 2, k - 1);
      ClearStep(a, p);
      FloorDouble(a, p);
    }
  }

  lemma ClearStep(a: nat, p: nat)
    requires p > 0
    ensures Clear(a, 2 * p - 1) == 2 * Clear(a / 2, p - 1)
  {
    assert Clear(0, p - 1) == 0;
    assert (2 * p - 1) / 2 == p - 1 && (2 * p - 1) % 2 == 1;
  }

  lemma TimesDouble(q: nat, p: nat)
    ensures Times(q, 2 * p) == 2 * Times(q, p)
  {
    assert q * (2 * p) == 2 * (q * p);
  }

  lemma {:induction false} ClearNone(a: nat)
    ensures Clear(a, 0) == a
  {
    if a > 0 {
      ClearNone(a / 2);
    }
  }

  /** For a power of two y, Align gives the least multiple of y at or above x. */
  lemma AlignIsLeastMultiple(x: nat, y: nat, q: nat)
    requires y > 0 && IsPot(y)
    ensures Align(x, y) == Times(CeilDiv(x, y), y)
    ensures x <= Times(q, y) <==> Align(x, y) <= Times(q, y)
  {
    IsPotIff(y);
    var k: nat :| y == Pow2(k);
    ClearMeaning(x + (y - 1), k);
    CeilDivIff(x, y, q);
  }

  lemma CeilDivIff(x: nat, y: nat, q: nat)
    requires y > 0
    ensures x <= Times(q, y) <==> Times(CeilDiv(x, y), y) <= Times(q, y)
  {
    hide Times;
    DivBounds(x + y - 1, y);
    TimesSum(CeilDiv(x, y), 1, y);
    TimesUnits(y);
    if q < CeilDiv(x, y) {
      TimesMono(q + 1, CeilDiv(x, y), y);
      TimesSum(q, 1, y);
    } else {
      TimesMono(CeilDiv(x, y), q, y);
    }
  }

  // ----- the addresses of the specification -----

  /** The pixel store parameters for unpacking. */
  datatype Unpack = Unpack(
    alignment: nat, rowLength: int, imageHeight: int, skipRows: nat, skipPixels: nat, skipImages: nat)

  function RowPixels(u: Unpack, width: nat): nat {
    if u.rowLength > 0 then u.rowLength else width
  }

  function ImageRows(u: Unpack, height: nat): nat {
    if u.imageHeight > 0 then u.imageHeight else height
  }

  /** From one row to the next: the row's bytes, rounded up to the alignment. */
  function RowStride(u: Unpack, width: nat, bits: nat): nat {
    var bytes := ByteCount(Times(RowPixels(u, width), bits));
    if u.alignment > 0 && IsPot(u.alignment) then Times(CeilDiv(bytes, u.alignment), u.alignment)
    else bytes
  }

  function ImageStride(u: Unpack, width: nat, height: nat, bits: nat): nat {
    Times(ImageRows(u, height), RowStride(u, width, bits))
  }

  /** Where row y of image z begins. */
  function RowStart(u: Unpack, width: nat, height: nat, bits: nat, y: nat, z: nat): nat {
    Times(u.skipImages + z, ImageStride(u, width, height, bits)) + Times(u.skipRows + y, RowStride(u, width, bits))
  }

  /** One past the last byte that pixel x of row y of image z touches. */
  function PixelEnd(u: Unpack, width: nat, height: nat, bits: nat, x: nat, y: nat, z: nat): nat {
    RowStart(u, width, height, bits, y, z) + ByteCount(Times(u.skipPixels + x + 1, bits))
  }

  /** Every pixel of the box lies below n. */
  ghost predicate Contains(u: Unpack, width: nat, height: nat, depth: nat, bits: nat, n: nat) {
    forall x: nat, y: nat, z: nat :: x < width && y < height && z < depth ==>
      PixelEnd(u, width, height, bits, x, y, z) <= n
  }

  /** The distance between the starts of neighbouring rows is the least multiple of the alignment that
      holds the bits of GL_UNPACK_ROW_LENGTH pixels or, if that is not positive, of the row's width. */
  lemma RowsApart(u: Unpack, width: nat, height: nat, bits: nat, y: nat, z: nat) returns (d: nat)
    requires u.alignment in {1, 2, 4, 8}
    ensures RowStart(u, width, height, bits, y + 1, z) == RowStart(u, width, height, bits, y, z) + d
    ensures var pixels := if u.rowLength > 0 then u.rowLength else width;
      && 8 * d >= Times(pixels, bits)
      && (exists q: nat :: d == Times(q, u.alignment))
      && forall q: nat :: 8 * Times(q, u.alignment) >= Times(pixels, bits) ==> d <= Times(q, u.alignment)
  {
    d := RowStride(u, width, bits);
    TimesSum(u.skipRows + y, 1, d);
    TimesUnits(d);
    var bytes := ByteCount(Times(RowPixels(u, width), bits));
    PotsAre(u.alignment);
    assert d == Times(CeilDiv(bytes, u.alignment), u.alignment);
    hide Times, CeilDiv, IsPot, RowStride, ImageStride;
    forall q: nat ensures bytes <= Times(q, u.alignment) <==> d <= Times(q, u.alignment) {
      CeilDivIff(bytes, u.alignment, q);
    }
    CeilDivIff(bytes, u.alignment, CeilDiv(bytes, u.alignment));
  }

  /** The distance between the starts of neighbouring images is that of GL_UNPACK_IMAGE_HEIGHT rows
      or, if that is not positive, of the image's height. */
  lemma ImagesApart(u: Unpack, width: nat, height: nat, bits: nat, y: nat, z: nat, d: nat)
    requires RowStart(u, width, height, bits, 1, 0) == RowStart(u, width, height, bits, 0, 0) + d
    ensures RowStart(u, width, height, bits, y, z + 1) == RowStart(u, width, height, bits, y, z)
      + Times(if u.imageHeight > 0 then u.imageHeight else height, d)
  {
    TimesSum(u.skipRows + 0, 1, RowStride(u, width, bits));
    TimesUnits(RowStride(u, width, bits));
    TimesSum(u.skipImages + z, 1, ImageStride(u, width, height, bits));
    TimesUnits(ImageStride(u, width, height, bits));
    hide Times, RowStride;
  }

  /** The first row of the box lies behind the skipped images and rows. */
  lemma FirstRowOfBox(u: Unpack, width: nat, height: nat, bits: nat, d: nat)
    requires RowStart(u, width, height, bits, 1, 0) == RowStart(u, width, height, bits, 0, 0) + d
    ensures RowStart(u, width, height, bits, 0, 0)
      == Times(u.skipImages, Times(if u.imageHeight > 0 then u.imageHeight else height, d)) + Times(u.skipRows, d)
  {
    TimesSum(u.skipRows + 0, 1, RowStride(u, width, bits));
    TimesUnits(RowStride(u, width, bits));
    hide Times, RowStride;
  }

  /** In its row, a pixel ends with the first byte that holds all bits of the skipped pixels, those
      before it, and its own. */
  lemma PixelInRow(u: Unpack, width: nat, height: nat, bits: nat, x: nat, y: nat, z: nat, n: nat)
    ensures PixelEnd(u, width, height, bits, x, y, z) <= RowStart(u, width, height, bits, y, z) + n
      <==> Times(u.skipPixels + x + 1, bits) <= 8 * n
  {
    hide Times, RowStart;
  }

  /** The specification's stride for elements of s bytes, n to a pixel: with alignment a it is s n l
      bytes if s >= a, else s n l rounded up to a multiple of a. */
  lemma StrideOfSpecification(u: Unpack, width: nat, s: nat, n: nat)
    requires s in {1, 2, 4, 8} && u.alignment in {1, 2, 4, 8}
    ensures var l, a := RowPixels(u, width), u.alignment;
      RowStride(u, width, 8 * (s * n)) == if s >= a then l * (s * n) else a * CeilDiv(l * (s * n), a)
  {
    var l, a := RowPixels(u, width), u.alignment;
    PotsAre(a);
    BytesOfWhole(l, s * n);
    TimesIs(CeilDiv(l * (s * n), a), a);
    if s >= a {
      WholeElements(l, s, n, a);
    }
    hide Times, CeilDiv, IsPot, RowPixels;
  }

  lemma TimesIs(q: nat, a: nat)
    ensures Times(q, a) == a * q
  {
  }

  /** Elements whose size is a multiple of the alignment need no rounding. */
  lemma WholeElements(l: nat, s: nat, n: nat, a: nat)
    requires s in {1, 2, 4, 8} && a in {1, 2, 4, 8} && s >= a
    ensures a * CeilDiv(l * (s * n), a) == l * (s * n)
  {
    var q := s / a;
    assert s == q * a;
    Reorder(l, q, a, n);
    ExactMultiple(l * (q * n), a);
  }

  lemma Reorder(l: nat, q: nat, a: nat, n: nat)
    ensures l * (q * a * n) == l * (q * n) * a
  {
    assert q * a * n == q * n * a;
  }

  /** The specification's stride for bitmaps: for a row of l pixels, a times l / 8 a rounded up. */
  lemma StrideOfBitmap(u: Unpack, width: nat)
    requires u.alignment in {1, 2, 4, 8}
    ensures RowStride(u, width, 1) == Times(CeilDiv(RowPixels(u, width), Times(8, u.alignment)), u.alignment)
  {
    var l, a := RowPixels(u, width), u.alignment;
    PotsAre(a);
    TimesUnits(l);
    TimesPositive(8, a);
    assert ByteCount(l) == CeilDiv(l, 8);
    hide Times, CeilDiv, IsPot, RowPixels;
    CeilDivTwice(l, 8, a);
  }

  lemma PotsAre(a: nat)
    requires a in {1, 2, 4, 8}
    ensures IsPot(a)
  {
    assert Pow2(0) == 1 && Pow2(1) == 2 && Pow2(2) == 4 && Pow2(3) == 8;
    IsPotIff(a);
  }

  lemma BytesOfWhole(l: nat, b: nat)
    ensures ByteCount(Times(l, 8 * b)) == l * b
  {
    assert l * (8 * b) == 8 * (l * b);
  }

  lemma ExactMultiple(q: nat, a: nat)
    requires a > 0
    ensures CeilDiv(q * a, a) == q
  {
    assert Times(q, a) == q * a;
    TimesSum(q, 1, a);
    TimesUnits(a);
    hide Times;
    QuotientIs(q * a + a - 1, a, q);
  }

  // ----- the size -----

  /** The bytes lost because width and skipped pixels are rounded up separately. */
  function Slack(skipped: nat, row: nat): nat {
    if skipped % 8 != 0 && row % 8 != 0 && skipped % 8 + row % 8 <= 8 then 1 else 0
  }

  lemma BytesSum(skipped: nat, row: nat)
    ensures ByteCount(row) + ByteCount(skipped) == ByteCount(skipped + row) + Slack(skipped, row)
  {
  }

  /** What the method computes: the end of the last pixel, and what rounding loses. */
  function Total(u: Unpack, width: nat, height: nat, depth: nat, bits: nat): nat {
    RowStart(u, width, height, bits, if height > 1 then height - 1 else 0, if depth > 1 then depth - 1 else 0)
    + ByteCount(Times(u.skipPixels + width, bits)) + Slack(Times(u.skipPixels, bits), Times(width, bits))
  }

  /** Without sub-image unpacking only the alignment counts. */
  method GlImageSize(bits: nat, width: nat, height: nat, depth: nat, unpack: Unpack, subimage: bool) returns (size: nat)
    requires unpack.alignment > 0
    ensures subimage ==> size == Total(unpack, width, height, depth, bits)
    ensures !subimage ==> size == Total(Unpack(unpack.alignment, 0, 0, 0, 0, 0), width, height, depth, bits)
  {
    hide Times, IsPot, Align, CeilDiv, RowStart, Slack;
    var alignment := unpack.alignment;
    var rowLength, imageHeight, skipRows, skipPixels, skipImages := 0, 0, 0, 0, 0;
    if subimage {
      rowLength := unpack.rowLength;
      imageHeight := unpack.imageHeight;
      skipRows := unpack.skipRows;
      skipPixels := unpack.skipPixels;
      skipImages := unpack.skipImages;
    }
    if rowLength <= 0 {
      rowLength := width;
    }
    var rowStride := (Times(rowLength, bits) + 7) / 8;
    if IsPot(alignment) {
      AlignIsLeastMultiple(rowStride, alignment, 0);
      rowStride := Align(rowStride, alignment);
    }
    if imageHeight <= 0 {
      imageHeight := height;
    }
    var imageStride := Times(imageHeight, rowStride);
    size := (Times(width, bits) + 7) / 8;
    if height > 1 {
      size := size + Times(height - 1, rowStride);
    }
    if depth > 1 {
      size := size + Times(depth - 1, imageStride);
    }
    size := size + (Times(skipPixels, bits) + 7) / 8;
    size := size + Times(skipRows, rowStride);
    size := size + Times(skipImages, imageStride);
    SumsUp(Unpack(alignment, if subimage then unpack.rowLength else 0, if subimage then unpack.imageHeight else 0,
                  skipRows, skipPixels, skipImages),
           width, height, depth, bits, rowStride, imageStride);
  }

  lemma SumsUp(u: Unpack, width: nat, height: nat, depth: nat, bits: nat, rowStride: nat, imageStride: nat)
    requires rowStride == RowStride(u, width, bits) && imageStride == ImageStride(u, width, height, bits)
    ensures var y, z := if height > 1 then height - 1 else 0, if depth > 1 then depth - 1 else 0;
      RowStart(u, width, height, bits, y, z)
        + ByteCount(Times(u.skipPixels + width, bits)) + Slack(Times(u.skipPixels, bits), Times(width, bits))
      == ByteCount(Times(width, bits)) + Times(y, rowStride) + Times(z, imageStride)
        + ByteCount(Times(u.skipPixels, bits)) + Times(u.skipRows, rowStride) + Times(u.skipImages, imageStride)
    ensures Times(0, rowStride) == 0 && Times(0, imageStride) == 0
  {
    var y, z := if height > 1 then height - 1 else 0, if depth > 1 then depth - 1 else 0;
    hide Times, RowStride, ImageStride, ByteCount, Slack;
    TimesSum(u.skipRows, y, rowStride);
    TimesSum(u.skipImages, z, imageStride);
    TimesUnits(rowStride);
    TimesUnits(imageStride);
    TimesSum(u.skipPixels, width, bits);
    BytesSum(Times(u.skipPixels, bits), Times(width, bits));
  }

  /** All pixels of the box lie below n exactly if the last one does. */
  lemma ContainsIffLast(u: Unpack, width: nat, height: nat, depth: nat, bits: nat, n: nat)
    requires width > 0 && height > 0 && depth > 0
    ensures Contains(u, width, height, depth, bits, n)
      <==> PixelEnd(u, width, height, bits, width - 1, height - 1, depth - 1) <= n
  {
    hide Times, RowStride, ImageStride;
    forall x: nat, y: nat, z: nat | x < width && y < height && z < depth
      ensures PixelEnd(u, width, height, bits, x, y, z)
        <= PixelEnd(u, width, height, bits, width - 1, height - 1, depth - 1)
    {
      TimesMono(u.skipImages + z, u.skipImages + (depth - 1), ImageStride(u, width, height, bits));
      TimesMono(u.skipRows + y, u.skipRows + (height - 1), RowStride(u, width, bits));
      TimesMono(u.skipPixels + x + 1, u.skipPixels + width, bits);
    }
  }

  /** The size bounds every byte of every pixel; it is the least such bound if and only if no byte is
      lost to rounding, and otherwise it is one too large. */
  lemma SizeIsBound(u: Unpack, width: nat, height: nat, depth: nat, bits: nat)
    requires width > 0 && height > 0 && depth > 0
    ensures var size := Total(u, width, height, depth, bits);
      && Contains(u, width, height, depth, bits, size)
      && (forall n: nat :: Contains(u, width, height, depth, bits, n) ==> size <= n + 1)
      && ((forall n: nat :: Contains(u, width, height, depth, bits, n) <==> size <= n)
          <==> Slack(Times(u.skipPixels, bits), Times(width, bits)) == 0)
  {
    var size := Total(u, width, height, depth, bits);
    var last := PixelEnd(u, width, height, bits, width - 1, height - 1, depth - 1);
    hide Times, RowStart, Contains;
    forall n: nat ensures Contains(u, width, height, depth, bits, n) <==> last <= n {
      ContainsIffLast(u, width, height, depth, bits, n);
    }
    assert Contains(u, width, height, depth, bits, last);
    assert Contains(u, width, height, depth, bits, size);
  }

  /** Nothing is lost when a pixel is a whole number of bytes. */
  lemma WholeBytesAreTight(skipPixels: nat, width: nat, bytes: nat)
    ensures Slack(Times(skipPixels, 8 * bytes), Times(width, 8 * bytes)) == 0
  {
    assert skipPixels * (8 * bytes) == 8 * (skipPixels * bytes);
  }

  lemma FirstRow(u: Unpack, width: nat, height: nat, bits: nat)
    requires u.skipRows == 0 && u.skipImages == 0
    ensures RowStart(u, width, height, bits, 0, 0) == 0
  {
    TimesUnits(RowStride(u, width, bits));
    TimesUnits(ImageStride(u, width, height, bits));
    hide Times, RowStride, ImageStride;
  }

  /** One pixel skipped and one read, of at most four bits each: the only pixel of the box ends with
      the first byte, the size is two. */
  lemma OneTooLarge(u: Unpack, bits: nat)
    requires 1 <= bits <= 4 && u.skipRows == 0 && u.skipImages == 0 && u.skipPixels == 1
    ensures Total(u, 1, 1, 1, bits) == 2 && PixelEnd(u, 1, 1, bits, 0, 0, 0) == 1
  {
    FirstRow(u, 1, 1, bits);
    TimesUnits(bits);
    TimesSum(1, 1, bits);
    hide RowStart, Times;
  }
}
