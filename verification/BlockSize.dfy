/** Sizes of mapped textures (helpers/dxgisize.hpp and helpers/d3dcommonsize.hpp). */
module BlockSize {

  import opened Options
  import opened Bytes
  import opened Rounding

  /** Texels come in blocks of width times height; a block takes so many bits. */
  datatype Blocks = Blocks(bits: nat, width: nat, height: nat)

  // ----- what a size means -----

  /** Where the block of texel (x, y, z) ends, in bits. */
  function BitEnd(f: Blocks, x: nat, y: nat, z: nat, rowPitch: nat, slicePitch: nat): nat
    requires f.width > 0 && f.height > 0
  {
    8 * (Times(z, slicePitch) + Times(y / f.height, rowPitch)) + Times(x / f.width + 1, f.bits)
  }

  /** A buffer of n bytes holds the block of every texel of the box. */
  ghost predicate Holds(f: Blocks, width: nat, height: nat, depth: nat, rowPitch: nat, slicePitch: nat, n: nat)
    requires f.width > 0 && f.height > 0
  {
    forall x: nat, y: nat, z: nat :: x < width && y < height && z < depth ==>
      BitEnd(f, x, y, z, rowPitch, slicePitch) <= 8 * n
  }

  /** n is the least number of bytes that holds the box. */
  ghost predicate IsLeast(f: Blocks, width: nat, height: nat, depth: nat, rowPitch: nat, slicePitch: nat, n: nat)
    requires f.width > 0 && f.height > 0
  {
    forall k: nat :: Holds(f, width, height, depth, rowPitch, slicePitch, k) <==> n <= k
  }

  /** The bits and the bytes of one row of blocks. */
  function RowBits(f: Blocks, width: nat): nat
    requires f.width > 0
  {
    Times(CeilDiv(width, f.width), f.bits)
  }

  function RowBytes(f: Blocks, width: nat): nat
    requires f.width > 0
  {
    ByteCount(RowBits(f, width))
  }

  /** A row's bytes are the least number that holds the block of every texel of the row. */
  lemma RowBytesIsLeast(f: Blocks, width: nat, n: nat)
    requires f.width > 0 && width > 0
    ensures RowBytes(f, width) <= n <==> forall x: nat :: x < width ==> Times(x / f.width + 1, f.bits) <= 8 * n
  {
    LastGroup(width, f.width);
    hide Times, CeilDiv;
    var last: nat := width - 1;
    forall x: nat | x < width ensures Times(x / f.width + 1, f.bits) <= RowBits(f, width) {
      DivMono(x, last, f.width);
      TimesMono(x / f.width + 1, last / f.width + 1, f.bits);
    }
    assert Times(last / f.width + 1, f.bits) == RowBits(f, width);
  }

  /** What the closed formulas compute. */
  function ClosedSize(f: Blocks, width: nat, height: nat, depth: nat, rowPitch: nat, slicePitch: nat): nat
    requires f.width > 0 && f.height > 0 && width > 0 && height > 0 && depth > 0
  {
    LastGroup(height, f.height);
    RowBytes(f, width) + Times(CeilDiv(height, f.height) - 1, rowPitch) + Times(depth - 1, slicePitch)
  }

  lemma EndsInOrder(f: Blocks, x: nat, y: nat, z: nat, x': nat, y': nat, z': nat, rowPitch: nat, slicePitch: nat)
    requires f.width > 0 && f.height > 0 && x <= x' && y <= y' && z <= z'
    ensures BitEnd(f, x, y, z, rowPitch, slicePitch) <= BitEnd(f, x', y', z', rowPitch, slicePitch)
  {
    hide Times;
    DivMono(x, x', f.width);
    DivMono(y, y', f.height);
    TimesMono(x / f.width + 1, x' / f.width + 1, f.bits);
    TimesMono(y / f.height, y' / f.height, rowPitch);
    TimesMono(z, z', slicePitch);
  }

  /** The end of the last block and the closed formula, over the same whole bytes. */
  lemma LastEnd(f: Blocks, width: nat, height: nat, depth: nat, rowPitch: nat, slicePitch: nat) returns (below: nat)
    requires f.width > 0 && f.height > 0 && width > 0 && height > 0 && depth > 0
    ensures BitEnd(f, width - 1, height - 1, depth - 1, rowPitch, slicePitch) == 8 * below + RowBits(f, width)
    ensures ClosedSize(f, width, height, depth, rowPitch, slicePitch) == below + ByteCount(RowBits(f, width))
  {
    LastGroup(width, f.width);
    LastGroup(height, f.height);
    below := Times(depth - 1, slicePitch) + Times((height - 1) / f.height, rowPitch);
    hide Times, CeilDiv;
  }

  lemma WholeBytes(below: nat, bits: nat, k: nat)
    ensures 8 * below + bits <= 8 * k <==> below + ByteCount(bits) <= k
    ensures 8 * below + bits == 8 * (below + ByteCount(bits)) <==> bits % 8 == 0
  {
  }

  lemma HoldsIffLast(f: Blocks, width: nat, height: nat, depth: nat, rowPitch: nat, slicePitch: nat, n: nat)
    requires f.width > 0 && f.height > 0 && width > 0 && height > 0 && depth > 0
    ensures Holds(f, width, height, depth, rowPitch, slicePitch, n)
      <==> BitEnd(f, width - 1, height - 1, depth - 1, rowPitch, slicePitch) <= 8 * n
  {
    hide BitEnd;
    forall x: nat, y: nat, z: nat | x < width && y < height && z < depth
      ensures BitEnd(f, x, y, z, rowPitch, slicePitch)
        <= BitEnd(f, width - 1, height - 1, depth - 1, rowPitch, slicePitch)
    {
      EndsInOrder(f, x, y, z, width - 1, height - 1, depth - 1, rowPitch, slicePitch);
    }
  }

  lemma LeastIs(f: Blocks, width: nat, height: nat, depth: nat, rowPitch: nat, slicePitch: nat, n: nat)
    requires f.width > 0 && f.height > 0
    requires forall k: nat :: Holds(f, width, height, depth, rowPitch, slicePitch, k) <==> n <= k
    ensures IsLeast(f, width, height, depth, rowPitch, slicePitch, n)
  {
  }

  /** The closed formula is the least sufficient size, for every format, box and pitch; and the last
      block ends exactly there if and only if a row of blocks is a whole number of bytes. */
  lemma ClosedSizeIsLeast(f: Blocks, width: nat, height: nat, depth: nat, rowPitch: nat, slicePitch: nat)
    requires f.width > 0 && f.height > 0 && width > 0 && height > 0 && depth > 0
    ensures IsLeast(f, width, height, depth, rowPitch, slicePitch,
      ClosedSize(f, width, height, depth, rowPitch, slicePitch))
    ensures BitEnd(f, width - 1, height - 1, depth - 1, rowPitch, slicePitch)
        == 8 * ClosedSize(f, width, height, depth, rowPitch, slicePitch)
      <==> RowBits(f, width) % 8 == 0
  {
    hide *;
    var below := LastEnd(f, width, height, depth, rowPitch, slicePitch);
    var size := ClosedSize(f, width, height, depth, rowPitch, slicePitch);
    WholeBytes(below, RowBits(f, width), 0);
    forall k: nat ensures Holds(f, width, height, depth, rowPitch, slicePitch, k) <==> size <= k {
      HoldsIffLast(f, width, height, depth, rowPitch, slicePitch, k);
      WholeBytes(below, RowBits(f, width), k);
    }
    LeastIs(f, width, height, depth, rowPitch, slicePitch, size);
  }

  // ----- DXGI -----

  datatype DxgiFormat = Blocked(f: Blocks) | Nv12 | Unsupported

  ghost predicate Proper(format: DxgiFormat) {
    format.Blocked? ==> format.f.bits > 0 && format.f.width > 0 && format.f.height > 0
  }

  method CalcSliceSize(format: DxgiFormat, width: nat, height: nat, rowPitch: nat) returns (size: nat)
    requires Proper(format)
    ensures width == 0 || height == 0 || format.Unsupported? ==> size == 0
    ensures width > 0 && height > 0 && format.Nv12? ==> size == Times(height + CeilDiv(height, 2), rowPitch)
    ensures width > 0 && height > 0 && format.Blocked? ==> size > 0
    ensures width > 0 && height > 0 && format.Blocked? ==> size == ClosedSize(format.f, width, height, 1, rowPitch, 0)
  {
    if width == 0 || height == 0 {
      return 0;
    }
    match format {
      case Unsupported => return 0;
      case Nv12 => return Times(height + (height + 1) / 2, rowPitch);
      case Blocked(f) =>
        var columns, rows := (width + f.width - 1) / f.width, (height + f.height - 1) / f.height;
        LastGroup(width, f.width);
        LastGroup(height, f.height);
        TimesPositive(columns, f.bits);
        TimesUnits(rowPitch);
        TimesUnits(0);
        hide Times;
        size := (Times(columns, f.bits) + 7) / 8;
        if rows > 1 {
          size := size + Times(rows - 1, rowPitch);
        }
    }
  }

  method CalcDataSize(format: DxgiFormat, width: nat, height: nat, rowPitch: nat, depth: nat, depthPitch: nat)
    returns (size: nat)
    requires Proper(format)
    ensures width == 0 || height == 0 || depth == 0 || format.Unsupported? ==> size == 0
    ensures width > 0 && height > 0 && depth > 0 && format.Blocked? ==>
      IsLeast(format.f, width, height, depth, rowPitch, depthPitch, size)
    ensures width > 0 && height > 0 && depth > 0 && format.Nv12? ==>
      size == Times(height + CeilDiv(height, 2), rowPitch)
        + (if rowPitch > 0 then Times(depth - 1, depthPitch) else 0)
  {
    if depth == 0 {
      return 0;
    }
    size := CalcSliceSize(format, width, height, rowPitch);
    if format.Nv12? {
      TimesPositive(height + CeilDiv(height, 2), rowPitch);
    }
    if size != 0 && depth > 1 {
      size := size + Times(depth - 1, depthPitch);
    }
    if width > 0 && height > 0 && format.Blocked? {
      ClosedSizeIsLeast(format.f, width, height, depth, rowPitch, depthPitch);
    }
  }

  // ----- Direct3D 8 and 9 -----

  const PACKED_PITCH: int := 0x7ffffff

  datatype D3dFormat = Planar | Ati1 | Ati2 | Plain(f: Blocks)

  function Min(a: nat, b: nat): nat { if b < a then b else a }

  /** The size of a whole locked level: full rows of blocks. */
  function FullSize(f: Blocks, height: nat, depth: nat, pitch: nat, slicePitch: nat): nat
    requires f.height > 0 && depth > 0
  {
    Times(CeilDiv(height, f.height), pitch) + Times(depth - 1, slicePitch)
  }

  lemma FullAndClosed(f: Blocks, width: nat, height: nat, depth: nat, pitch: nat, slicePitch: nat)
    requires f.width > 0 && f.height > 0 && width > 0 && height > 0 && depth > 0
    ensures FullSize(f, height, depth, pitch, slicePitch) + RowBytes(f, width)
      == ClosedSize(f, width, height, depth, pitch, slicePitch) + pitch
  {
    LastGroup(height, f.height);
    TimesSum(CeilDiv(height, f.height) - 1, 1, pitch);
    TimesUnits(pitch);
    hide Times, CeilDiv;
  }

  /** A whole level takes exactly the least sufficient size if and only if its rows are packed; and it
      is enough if and only if the pitch is not smaller than a packed row. */
  lemma FullIsLeastIffPacked(f: Blocks, width: nat, height: nat, depth: nat, pitch: nat, slicePitch: nat)
    requires f.width > 0 && f.height > 0 && width > 0 && height > 0 && depth > 0
    ensures IsLeast(f, width, height, depth, pitch, slicePitch, FullSize(f, height, depth, pitch, slicePitch))
      <==> pitch == RowBytes(f, width)
    ensures Holds(f, width, height, depth, pitch, slicePitch, FullSize(f, height, depth, pitch, slicePitch))
      <==> pitch >= RowBytes(f, width)
  {
    var full := FullSize(f, height, depth, pitch, slicePitch);
    var closed := ClosedSize(f, width, height, depth, pitch, slicePitch);
    LastGroup(height, f.height);
    FullAndClosed(f, width, height, depth, pitch, slicePitch);
    hide FullSize, ClosedSize, RowBytes;
    ClosedSizeIsLeast(f, width, height, depth, pitch, slicePitch);
    if IsLeast(f, width, height, depth, pitch, slicePitch, full) {
      assert Holds(f, width, height, depth, pitch, slicePitch, closed);
      assert Holds(f, width, height, depth, pitch, slicePitch, full);
    }
  }

  /** The source computes the packed pitch by dividing by the block width, which is zero for a format
      that it does not know. */
  predicate DividesByZero(format: D3dFormat, width: nat, height: nat, rowPitch: int, depth: nat) {
    && width > 0 && height > 0 && depth > 0
    && rowPitch == PACKED_PITCH && format.Plain? && format.f.width == 0
  }

  /** The block formats of a lock: Partial, or a single row of blocks, gives the least size.  None
      where the source divides by zero.  The block height is asserted not to be zero. */
  method GetLockSize(
      format: D3dFormat, partial: bool, width: nat, height: nat, rowPitch: int, depth: nat, slicePitch: int)
    returns (size: Option<nat>)
    requires format.Plain? ==> format.f.height > 0
    ensures size == None <==> DividesByZero(format, width, height, rowPitch, depth)
    ensures width == 0 || height == 0 || depth == 0 || rowPitch < 0 ==> size == Some(0)
    ensures size.Some? && depth > 1 && slicePitch < 0 ==> size == Some(0)
    ensures size.Some? && width > 0 && height > 0 && depth > 0 && rowPitch >= 0 && (depth > 1 ==> slicePitch >= 0) ==>
      var slice := if depth > 1 then slicePitch else 0;
      var pitch :=
        if rowPitch != PACKED_PITCH then rowPitch else if format.Plain? then RowBytes(format.f, width) else width;
      match format {
        case Planar => size.value == Times(height + CeilDiv(height, 2), pitch) + Times(depth - 1, slice)
        case Ati1 => size.value ==
          Min(Times(height, pitch), Times(CeilDiv(height, 4), CeilDiv(width, 4)) * 8) + Times(depth - 1, slice)
        case Ati2 => size.value ==
          Min(Times(height, pitch), Times(CeilDiv(height, 4), CeilDiv(width, 4)) * 16) + Times(depth - 1, slice)
        case Plain(f) =>
          if f.width > 0 && (partial || CeilDiv(height, f.height) == 1) then
            size.value == ClosedSize(f, width, height, depth, pitch, slice)
          else size.value == FullSize(f, height, depth, pitch, slice)
      }
  {
    if width == 0 || height == 0 || depth == 0 {
      return Some(0);
    }
    if rowPitch < 0 {
      return Some(0);
    }
    var pitch: nat, total: nat := rowPitch, 0;
    match format {
      case Planar =>
        if pitch == PACKED_PITCH { pitch := width; }
        total := Times(height + (height + 1) / 2, pitch);
      case Ati1 =>
        if pitch == PACKED_PITCH { pitch := width; }
        total := Min(Times(height, pitch), Times((height + 3) / 4, (width + 3) / 4) * (64 / 8));
      case Ati2 =>
        if pitch == PACKED_PITCH { pitch := width; }
        total := Min(Times(height, pitch), Times((height + 3) / 4, (width + 3) / 4) * (128 / 8));
      case Plain(f) =>
        var rows := (height + f.height - 1) / f.height;
        LastGroup(height, f.height);
        if pitch == PACKED_PITCH {
          if f.width == 0 {
            return None;
          }
          pitch := (Times((width + f.width - 1) / f.width, f.bits) + 7) / 8;
        }
        total := Times(rows, pitch);
        if partial || rows == 1 {
          if f.width != 0 {
            var columns := (width + f.width - 1) / f.width;
            total := (Times(columns, f.bits) + 7) / 8;
            if rows > 1 {
              total := total + Times(rows - 1, pitch);
            }
          }
        }
    }
    if depth > 1 {
      if slicePitch < 0 {
        return Some(0);
      }
      total := total + Times(depth - 1, slicePitch);
    }
    return Some(total);
  }

  // ----- mipmap levels -----

  function Shifted(x: nat, k: nat): nat {
    if k == 0 then x else Shifted(x, k - 1) / 2
  }

  /** The extent of a mipmap level. */
  function Extent(x: nat, level: nat): nat {
    if Shifted(x, level) == 0 then 1 else Shifted(x, level)
  }

  predicate SingleTexel(width: nat, height: nat, depth: nat, level: nat) {
    Extent(width, level) == 1 && Extent(height, level) == 1 && Extent(depth, level) == 1
  }

  /** The extent of a level is that of the texture divided by a power of two, and at least one. */
  lemma {:induction false} ExtentIs(x: nat, level: nat)
    ensures Shifted(x, level) == x / Pow2(level)
    ensures Extent(x, level) == if x < Pow2(level) then 1 else x / Pow2(level)
  {
    var p := Pow2(level);
    if level > 0 {
      var half := Pow2(level - 1);
      ExtentIs(x, level - 1);
      TimesIsDouble(half);
      DivTwice(x, half, 2);
    }
    assert Shifted(x, level) == x / p;
    hide Shifted, Pow2, Times;
    SmallQuotient(x, p);
  }

  lemma TimesIsDouble(h: nat)
    ensures Times(h, 2) == 2 * h
  {
  }

  lemma SmallQuotient(x: nat, p: nat)
    requires p > 0
    ensures x / p == 0 <==> x < p
  {
    DivBounds(x, p);
    TimesUnits(p);
    hide Times;
    if x < p {
      QuotientIs(x, p, 0);
    }
  }

  lemma {:induction false} ShiftedDescends(x: nat, k: nat, l: nat)
    requires k <= l
    ensures Shifted(x, l) <= Shifted(x, k)
    decreases l
  {
    if k < l {
      ShiftedDescends(x, k, l - 1);
    }
  }

  /** The levels end with the first one that is a single texel. */
  method GetNumMipLevels(width: nat, height: nat, depth: nat) returns (levels: nat)
    ensures levels >= 1
    ensures forall l: nat :: SingleTexel(width, height, depth, l) <==> l >= levels - 1
  {
    levels := 1;
    var w, h, d := width / 2, height / 2, depth / 2;
    assert Shifted(width, 0) == width && Shifted(height, 0) == height && Shifted(depth, 0) == depth;
    while w != 0 || h != 0 || d != 0
      invariant levels >= 1
      invariant w == Shifted(width, levels) && h == Shifted(height, levels) && d == Shifted(depth, levels)
      invariant forall l: nat :: l < levels - 1 ==> !SingleTexel(width, height, depth, l)
      decreases w + h + d
    {
      w, h, d, levels := w / 2, h / 2, d / 2, levels + 1;
    }
    forall l: nat | l >= levels - 1 ensures SingleTexel(width, height, depth, l) {
      ShiftedDescends(width, levels - 1, l);
      ShiftedDescends(height, levels - 1, l);
      ShiftedDescends(depth, levels - 1, l);
    }
  }

  method CalcMipDataSize(
      level: nat, format: DxgiFormat, width: nat, height: nat, rowPitch: nat, depth: nat, depthPitch: nat)
    returns (size: nat)
    requires Proper(format)
    ensures width == 0 || height == 0 || depth == 0 || format.Unsupported? ==> size == 0
    ensures width > 0 && height > 0 && depth > 0 && format.Blocked? ==>
      IsLeast(format.f, Extent(width, level), Extent(height, level), Extent(depth, level), rowPitch, depthPitch, size)
  {
    if width == 0 || height == 0 || depth == 0 {
      return 0;
    }
    size := CalcDataSize(
      format, Extent(width, level), Extent(height, level), rowPitch, Extent(depth, level), depthPitch);
  }
}
