/** Pixel surfaces in memory, and the windows that are parts of them. */
module Surface {
  import opened Arithmetic
  import opened Bytes

  type Size16 = n: nat | n < 0x1_0000

  datatype Format = Argb8888 | Rgb888 | Rgb565 | Argb1555 | Argb4444 | L8 | Al44 | Al88 | A8 | A4

  datatype DisplaySize = DisplaySize(width: Size16, height: Size16)

  datatype DisplayArea = DisplayArea(x: Size16, y: Size16, width: Size16, height: Size16)

  datatype SurfaceWindow = SurfaceWindow(offset: nat, length: nat)

  datatype Surface = Surface(memory: seq<Byte>, size: DisplaySize, strideInBytes: nat, format: Format)

  datatype Channels = Channels(alpha: nat, red: nat, green: nat, blue: nat, lightness: nat)

  /** The bits of each channel, as the formats are named. */
  function ChannelsOf(format: Format): Channels {
    match format
    case Argb8888 => Channels(8, 8, 8, 8, 0)
    case Rgb888 => Channels(0, 8, 8, 8, 0)
    case Rgb565 => Channels(0, 5, 6, 5, 0)
    case Argb1555 => Channels(1, 5, 5, 5, 0)
    case Argb4444 => Channels(4, 4, 4, 4, 0)
    case L8 => Channels(0, 0, 0, 0, 8)
    case Al44 => Channels(4, 0, 0, 0, 4)
    case Al88 => Channels(8, 0, 0, 0, 8)
    case A8 => Channels(8, 0, 0, 0, 0)
    case A4 => Channels(4, 0, 0, 0, 0)
  }

  /** A pixel has the bits of its channels and no others. */
  function BitsPerPixel(format: Format): (bits: nat)
    ensures var c := ChannelsOf(format); bits == c.alpha + c.red + c.green + c.blue + c.lightness
    ensures 4 <= bits <= 32
  {
    match format
    case Argb8888 => 32
    case Rgb888 => 24
    case Rgb565 | Argb1555 | Argb4444 | Al88 => 16
    case L8 | Al44 | A8 => 8
    case A4 => 4
  }

  /** How many bytes this many bits take. */
  function BytesFor(bits: nat): nat {
    (bits + 7) / 8
  }

  function BytesPerRow(width: nat, format: Format): nat {
    BytesFor(width * BitsPerPixel(format))
  }

  predicate IsValidSurface(size: DisplaySize, format: Format, strideInBytes: nat, memorySize: nat) {
    if size.width == 0 || size.height == 0 then
      true
    else
      var rowBytes := BytesPerRow(size.width, format);
      var requiredBytes := (size.height - 1) * strideInBytes + rowBytes;
      strideInBytes >= rowBytes && memorySize >= requiredBytes
  }

  predicate IsValid(surface: Surface) {
    IsValidSurface(surface.size, surface.format, surface.strideInBytes, |surface.memory|)
  }

  predicate Contains(size: DisplaySize, area: DisplayArea) {
    area.x + area.width <= size.width && area.y + area.height <= size.height
  }

  predicate IsAligned(format: Format, area: DisplayArea) {
    area.x * BitsPerPixel(format) % 8 == 0
  }

  predicate IsEmpty(area: DisplayArea) {
    area.width == 0 || area.height == 0
  }

  function WindowOf(size: DisplaySize, format: Format, strideInBytes: nat, area: DisplayArea): SurfaceWindow
    requires Contains(size, area) && IsAligned(format, area)
  {
    var offset := Rows(area.y, strideInBytes) + area.x * BitsPerPixel(format) / 8;
    var length := if IsEmpty(area) then 0 else Rows(area.height - 1, strideInBytes) + BytesPerRow(area.width, format);
    SurfaceWindow(offset, length)
  }

  function Rows(count: nat, strideInBytes: nat): nat {
    ProductIsNat(count, strideInBytes);
    count * strideInBytes
  }

  // ----------------------------------------------------------------------------------------------- bits, bytes, rows

  /** Bytes that start where some others end take up as many together. */
  lemma BytesAdd(start: nat, bits: nat)
    requires start % 8 == 0
    ensures start / 8 + BytesFor(bits) == BytesFor(start + bits)
  {
  }

  lemma BytesGrow(bits: nat, more: nat)
    requires bits <= more
    ensures BytesFor(bits) <= BytesFor(more)
  {
  }

  /** A part of a row, from a whole byte on, lies within the bytes of the row. */
  lemma PartOfRow(x: nat, width: nat, total: nat, format: Format)
    requires x + width <= total && x * BitsPerPixel(format) % 8 == 0
    ensures x * BitsPerPixel(format) / 8 + BytesPerRow(width, format) <= BytesPerRow(total, format)
  {
    var bits := BitsPerPixel(format);
    Distribute(bits, x, width);
    Monotone(bits, x + width, total);
    BytesAdd(x * bits, width * bits);
    BytesGrow((x + width) * bits, total * bits);
  }

  /** The rows of an area, and the bytes before them, end within the rows of the surface. */
  lemma PartOfRows(y: nat, height: nat, total: nat, stride: nat)
    requires 0 < height && y + height <= total
    ensures y * stride + (height - 1) * stride <= (total - 1) * stride
    ensures y * stride >= 0 && (height - 1) * stride >= 0
  {
    Distribute(stride, y, height - 1);
    Monotone(stride, y + (height - 1), total - 1);
    ProductIsNat(y, stride);
    ProductIsNat(height - 1, stride);
  }

  /** The window of an area lies inside the memory of the surface, and is a valid surface of the size of the area. */
  lemma WindowIsInside(size: DisplaySize, format: Format, strideInBytes: nat, memorySize: nat, area: DisplayArea)
    requires IsValidSurface(size, format, strideInBytes, memorySize)
    requires Contains(size, area) && IsAligned(format, area) && !IsEmpty(area)
    ensures var window := WindowOf(size, format, strideInBytes, area);
      && window.offset + window.length <= memorySize
      && IsValidSurface(DisplaySize(area.width, area.height), format, strideInBytes, window.length)
  {
    PartOfRow(area.x, area.width, size.width, format);
    PartOfRows(area.y, area.height, size.height, strideInBytes);
  }

  function SubSurface(surface: Surface, area: DisplayArea): (r: Surface)
    requires IsValid(surface)
    requires Contains(surface.size, area) && IsAligned(surface.format, area) && !IsEmpty(area)
    ensures IsValid(r) && r.size == DisplaySize(area.width, area.height)
  {
    WindowIsInside(surface.size, surface.format, surface.strideInBytes, |surface.memory|, area);
    var window := WindowOf(surface.size, surface.format, surface.strideInBytes, area);
    Surface(surface.memory[window.offset..][..window.length], DisplaySize(area.width, area.height), surface.strideInBytes, surface.format)
  }

  // ------------------------------------------------------------------------------------------------- pixels and bytes

  lemma LastBit(bits: nat)
    requires bits > 0
    ensures (bits - 1) / 8 + 1 == BytesFor(bits)
  {
  }

  lemma BitOfRow(width: nat, x: nat, bits: nat, bit: nat)
    requires x < width && bit < bits
    ensures 0 <= (x * bits + bit) / 8 < BytesFor(width * bits)
  {
    ProductIsNat(x, bits);
    Distribute(bits, x, 1);
    Monotone(bits, x + 1, width);
    BitInBytes(0, x * bits + bit, width * bits);
  }

  /** Every bit of every pixel is in the memory, and no row reaches into the next one. */
  ghost predicate HoldsAllPixels(size: DisplaySize, format: Format, stride: nat, memorySize: nat) {
    && (forall x, y, bit {:trigger ByteOf(format, stride, x, y, bit)} |
          0 <= x < size.width && 0 <= y < size.height && 0 <= bit < BitsPerPixel(format) ::
          ByteOf(format, stride, x, y, bit) < memorySize)
    && (forall x, y, bit {:trigger ByteOf(format, stride, x, y, bit)} |
          0 <= x < size.width && 0 <= y < size.height && 0 <= bit < BitsPerPixel(format) ::
          ByteOf(format, stride, x, y, bit) < y * stride + stride)
  }

  /** The byte that a bit of a pixel is in. */
  function ByteOf(format: Format, stride: nat, x: nat, y: nat, bit: nat): int {
    y * stride + (x * BitsPerPixel(format) + bit) / 8
  }

  lemma PixelIsHeld(size: DisplaySize, format: Format, stride: nat, memorySize: nat, x: nat, y: nat, bit: nat)
    requires IsValidSurface(size, format, stride, memorySize)
    requires x < size.width && y < size.height && bit < BitsPerPixel(format)
    ensures 0 <= ByteOf(format, stride, x, y, bit) < memorySize && ByteOf(format, stride, x, y, bit) < y * stride + stride
  {
    BitOfRow(size.width, x, BitsPerPixel(format), bit);
    ByteOfRow(size.height, y, stride, (x * BitsPerPixel(format) + bit) / 8, BytesPerRow(size.width, format), memorySize);
  }

  lemma ByteOfRow(height: nat, y: nat, stride: nat, i: nat, rowBytes: nat, memorySize: nat)
    requires y < height && i < rowBytes <= stride && (height - 1) * stride + rowBytes <= memorySize
    ensures 0 <= y * stride + i < memorySize && y * stride + i < y * stride + stride
  {
    ProductIsNat(y, stride);
    Monotone(stride, y, height - 1);
  }

  lemma LastPixel(width: nat, format: Format, stride: nat, y: nat)
    requires width > 0
    ensures ByteOf(format, stride, width - 1, y, BitsPerPixel(format) - 1) + 1 == y * stride + BytesPerRow(width, format)
  {
    var bits := BitsPerPixel(format);
    Distribute(bits, width - 1, 1);
    ProductIsNat(width, bits);
    Monotone(bits, 1, width);
    LastBit(width * bits);
  }

  /** A surface with pixels is valid exactly if its memory holds all of them row by row. */
  lemma ValidIsLargeEnough(size: DisplaySize, format: Format, stride: nat, memorySize: nat)
    requires size.width > 0 && size.height > 0
    ensures IsValidSurface(size, format, stride, memorySize) <==> HoldsAllPixels(size, format, stride, memorySize)
  {
    if IsValidSurface(size, format, stride, memorySize) {
      forall x, y, bit {:trigger ByteOf(format, stride, x, y, bit)} |
        0 <= x < size.width && 0 <= y < size.height && 0 <= bit < BitsPerPixel(format)
        ensures ByteOf(format, stride, x, y, bit) < memorySize && ByteOf(format, stride, x, y, bit) < y * stride + stride
      {
        PixelIsHeld(size, format, stride, memorySize, x, y, bit);
      }
    }
    if HoldsAllPixels(size, format, stride, memorySize) {
      LastPixel(size.width, format, stride, size.height - 1);
      assert ByteOf(format, stride, size.width - 1, size.height - 1, BitsPerPixel(format) - 1) < memorySize;
    }
  }

  lemma AddedRowsAndBits(row: nat, y: nat, stride: nat, column: nat, x: nat, bits: nat, bit: nat)
    requires column * bits % 8 == 0
    ensures (row + y) * stride + ((column + x) * bits + bit) / 8
         == row * stride + column * bits / 8 + (y * stride + (x * bits + bit) / 8)
  {
    Distribute(stride, row, y);
    Distribute(bits, column, x);
    ProductIsNat(x, bits);
    ProductIsNat(column, bits);
    BytesBefore(column * bits, x * bits + bit);
  }

  lemma BytesBefore(start: nat, bits: nat)
    requires start % 8 == 0
    ensures (start + bits) / 8 == start / 8 + bits / 8
  {
  }

  lemma FurtherOn(size: DisplaySize, format: Format, stride: nat, area: DisplayArea, x: nat, y: nat, bit: nat)
    requires Contains(size, area) && IsAligned(format, area)
    ensures ByteOf(format, stride, area.x + x, area.y + y, bit) == WindowOf(size, format, stride, area).offset + ByteOf(format, stride, x, y, bit)
  {
    AddedRowsAndBits(area.y, y, stride, area.x, x, BitsPerPixel(format), bit);
  }

  lemma PartShowsByte(surface: Surface, area: DisplayArea, i: nat)
    requires IsValid(surface)
    requires Contains(surface.size, area) && IsAligned(surface.format, area) && !IsEmpty(area)
    requires i < |SubSurface(surface, area).memory|
    ensures
      var offset := WindowOf(surface.size, surface.format, surface.strideInBytes, area).offset;
      offset + i < |surface.memory| && SubSurface(surface, area).memory[i] == surface.memory[offset + i]
  {
    var window := WindowOf(surface.size, surface.format, surface.strideInBytes, area);
    WindowIsInside(surface.size, surface.format, surface.strideInBytes, |surface.memory|, area);
    ElementOfSlice(surface.memory, window.offset, window.length, i);
  }

  lemma PartShowsPixel(surface: Surface, area: DisplayArea, x: nat, y: nat, bit: nat)
    requires IsValid(surface)
    requires Contains(surface.size, area) && IsAligned(surface.format, area) && !IsEmpty(area)
    requires x < area.width && y < area.height && bit < BitsPerPixel(surface.format)
    ensures
      var inPart := ByteOf(surface.format, surface.strideInBytes, x, y, bit);
      var inWhole := ByteOf(surface.format, surface.strideInBytes, area.x + x, area.y + y, bit);
      && 0 <= inPart < |SubSurface(surface, area).memory| && 0 <= inWhole < |surface.memory|
      && SubSurface(surface, area).memory[inPart] == surface.memory[inWhole]
  {
    var part := SubSurface(surface, area);
    PixelIsHeld(part.size, part.format, part.strideInBytes, |part.memory|, x, y, bit);
    FurtherOn(surface.size, surface.format, surface.strideInBytes, area, x, y, bit);
    PartShowsByte(surface, area, ByteOf(surface.format, surface.strideInBytes, x, y, bit));
  }

  /** The pixel at x, y of a sub-surface is, bit by bit, the pixel of the surface at the area's position and x, y. */
  lemma SubSurfaceShowsArea(surface: Surface, area: DisplayArea, x: nat, y: nat, bit: nat)
    requires IsValid(surface)
    requires Contains(surface.size, area) && IsAligned(surface.format, area) && !IsEmpty(area)
    requires x < area.width && y < area.height && bit < BitsPerPixel(surface.format)
    ensures
      var bits, stride := BitsPerPixel(surface.format), surface.strideInBytes;
      var inPart := y * stride + (x * bits + bit) / 8;
      var inWhole := (area.y + y) * stride + ((area.x + x) * bits + bit) / 8;
      && 0 <= inPart < |SubSurface(surface, area).memory| && 0 <= inWhole < |surface.memory|
      && SubSurface(surface, area).memory[inPart] == surface.memory[inWhole]
  {
    PartShowsPixel(surface, area, x, y, bit);
  }

  lemma ElementOfSlice(memory: seq<Byte>, offset: nat, length: nat, i: nat)
    requires offset + length <= |memory| && i < length
    ensures memory[offset..][..length][i] == memory[offset + i]
  {
  }

  /** A sub-surface ends with the byte of the last bit of its last pixel. */
  lemma SubSurfaceEndsWithLastPixel(surface: Surface, area: DisplayArea)
    requires IsValid(surface)
    requires Contains(surface.size, area) && IsAligned(surface.format, area) && !IsEmpty(area)
    ensures |SubSurface(surface, area).memory|
         == (area.height - 1) * surface.strideInBytes + (area.width * BitsPerPixel(surface.format) - 1) / 8 + 1
  {
    WindowIsInside(surface.size, surface.format, surface.strideInBytes, |surface.memory|, area);
    Monotone(BitsPerPixel(surface.format), 1, area.width);
    LastBit(area.width * BitsPerPixel(surface.format));
  }

  function Within(outer: DisplayArea, inner: DisplayArea): DisplayArea
    requires outer.x + inner.x < 0x1_0000 && outer.y + inner.y < 0x1_0000
  {
    DisplayArea(outer.x + inner.x, outer.y + inner.y, inner.width, inner.height)
  }

  /** A part of a part of a surface is the part of the surface at the sum of the positions. */
  lemma SubSurfacesCompose(surface: Surface, outer: DisplayArea, inner: DisplayArea)
    requires IsValid(surface)
    requires Contains(surface.size, outer) && IsAligned(surface.format, outer) && !IsEmpty(outer)
    requires Contains(DisplaySize(outer.width, outer.height), inner) && IsAligned(surface.format, inner) && !IsEmpty(inner)
    ensures Contains(surface.size, Within(outer, inner)) && IsAligned(surface.format, Within(outer, inner))
    ensures SubSurface(SubSurface(surface, outer), inner) == SubSurface(surface, Within(outer, inner))
  {
    var part := SubSurface(surface, outer);
    var first := WindowOf(surface.size, surface.format, surface.strideInBytes, outer);
    var second := WindowOf(part.size, surface.format, surface.strideInBytes, inner);
    OffsetsAdd(surface.size, surface.format, surface.strideInBytes, outer, inner);
    WindowIsInside(surface.size, surface.format, surface.strideInBytes, |surface.memory|, outer);
    WindowIsInside(part.size, surface.format, surface.strideInBytes, first.length, inner);
    SliceOfSlice(surface.memory, first.offset, first.length, second.offset, second.length);
  }

  lemma OffsetsAdd(size: DisplaySize, format: Format, strideInBytes: nat, outer: DisplayArea, inner: DisplayArea)
    requires Contains(size, outer) && IsAligned(format, outer)
    requires Contains(DisplaySize(outer.width, outer.height), inner) && IsAligned(format, inner)
    ensures Contains(size, Within(outer, inner)) && IsAligned(format, Within(outer, inner))
    ensures var first := WindowOf(size, format, strideInBytes, outer);
      var second := WindowOf(DisplaySize(outer.width, outer.height), format, strideInBytes, inner);
      WindowOf(size, format, strideInBytes, Within(outer, inner)) == SurfaceWindow(first.offset + second.offset, second.length)
  {
    Distribute(BitsPerPixel(format), outer.x, inner.x);
    WholeBytesAdd(outer.x * BitsPerPixel(format), inner.x * BitsPerPixel(format));
    Distribute(strideInBytes, outer.y, inner.y);
    assert Rows(outer.y + inner.y, strideInBytes) == Rows(outer.y, strideInBytes) + Rows(inner.y, strideInBytes);
  }

  lemma WholeBytesAdd(a: nat, b: nat)
    requires a % 8 == 0 && b % 8 == 0
    ensures (a + b) % 8 == 0 && (a + b) / 8 == a / 8 + b / 8
  {
  }

  lemma SliceOfSlice(memory: seq<Byte>, offset: nat, length: nat, inner: nat, n: nat)
    requires offset + length <= |memory| && inner + n <= length
    ensures memory[offset..][..length][inner..][..n] == memory[offset + inner..][..n]
  {
  }

  // ------------------------------------------------------------------------------------------------- disjoint areas

  /** Whether a byte of the memory is one of those that hold the pixels of a row of an area. */
  ghost predicate TouchesInRow(format: Format, strideInBytes: nat, area: DisplayArea, row: nat, index: int) {
    && area.y <= row < area.y + area.height
    && IsInSpan(strideInBytes, row, area.x * BitsPerPixel(format) / 8, BytesPerRow(area.width, format), index)
  }

  /** Whether a byte is one of a part of a row. */
  ghost predicate IsInSpan(strideInBytes: nat, row: nat, start: int, size: nat, index: int) {
    row * strideInBytes + start <= index < row * strideInBytes + start + size
  }

  ghost predicate Disjoint(a: DisplayArea, b: DisplayArea) {
    a.x + a.width <= b.x || b.x + b.width <= a.x || a.y + a.height <= b.y || b.y + b.height <= a.y
  }

  /** Every byte with a bit of a pixel of the area is one of those, also where a pixel is half a byte. */
  lemma PixelIsTouched(format: Format, strideInBytes: nat, area: DisplayArea, x: nat, y: nat, bit: nat)
    requires IsAligned(format, area) && area.x <= x < area.x + area.width && area.y <= y < area.y + area.height
    requires bit < BitsPerPixel(format)
    ensures TouchesInRow(format, strideInBytes, area, y, y * strideInBytes + (x * BitsPerPixel(format) + bit) / 8)
  {
    var bits := BitsPerPixel(format);
    ProductIsNat(y, strideInBytes);
    Monotone(bits, area.x, x);
    Monotone(bits, x + 1, area.x + area.width);
    Distribute(bits, x, 1);
    Distribute(bits, area.x, area.width);
    BytesAdd(area.x * bits, area.width * bits);
    BitInBytes(area.x * bits, x * bits + bit, (area.x + area.width) * bits);
  }

  lemma BitInBytes(start: nat, bit: nat, end: nat)
    requires start <= bit < end
    ensures start / 8 <= bit / 8 < BytesFor(end)
  {
  }

  /** The pixels of one row of two areas side by side are in different bytes. */
  lemma SideBySide(a: DisplayArea, b: DisplayArea, format: Format)
    requires IsAligned(format, a) && IsAligned(format, b) && a.x + a.width <= b.x
    ensures a.x * BitsPerPixel(format) / 8 + BytesPerRow(a.width, format) <= b.x * BitsPerPixel(format) / 8
  {
    var bits := BitsPerPixel(format);
    PartOfRow(a.x, a.width, b.x, format);
    WholeBytes(b.x * bits);
  }

  lemma WholeBytes(bits: nat)
    requires bits % 8 == 0
    ensures BytesFor(bits) == bits / 8
  {
  }

  lemma RowsApart(low: nat, high: nat, stride: nat)
    requires low < high
    ensures low * stride + stride <= high * stride
  {
    Distribute(stride, low, 1);
    Monotone(stride, low + 1, high);
  }

  lemma WithinRow(surface: Surface, area: DisplayArea)
    requires IsValid(surface) && Contains(surface.size, area) && IsAligned(surface.format, area) && !IsEmpty(area)
    ensures area.x * BitsPerPixel(surface.format) / 8 + BytesPerRow(area.width, surface.format) <= surface.strideInBytes
  {
    PartOfRow(area.x, area.width, surface.size.width, surface.format);
  }

  /** Disjoint areas of a valid surface touch disjoint bytes. */
  lemma DisjointAreasTouchDisjointBytes(surface: Surface, a: DisplayArea, b: DisplayArea, rowOfA: nat, rowOfB: nat, i: nat, j: nat)
    requires IsValid(surface)
    requires Contains(surface.size, a) && IsAligned(surface.format, a) && !IsEmpty(a)
    requires Contains(surface.size, b) && IsAligned(surface.format, b) && !IsEmpty(b)
    requires Disjoint(a, b)
    requires TouchesInRow(surface.format, surface.strideInBytes, a, rowOfA, i)
    requires TouchesInRow(surface.format, surface.strideInBytes, b, rowOfB, j)
    ensures i != j
  {
    WithinRow(surface, a);
    WithinRow(surface, b);
    if rowOfA == rowOfB {
      ColumnsApart(a, b, surface.format, rowOfA);
    }
    SpansApart(surface.strideInBytes, rowOfA, a.x * BitsPerPixel(surface.format) / 8, BytesPerRow(a.width, surface.format),
               rowOfB, b.x * BitsPerPixel(surface.format) / 8, BytesPerRow(b.width, surface.format), i, j);
  }

  /** Bytes of different rows, or of different parts of a row, are different. */
  lemma SpansApart(stride: nat, rowA: nat, startA: nat, sizeA: nat, rowB: nat, startB: nat, sizeB: nat, i: nat, j: nat)
    requires startA + sizeA <= stride && startB + sizeB <= stride
    requires rowA == rowB ==> startA + sizeA <= startB || startB + sizeB <= startA
    requires IsInSpan(stride, rowA, startA, sizeA, i) && IsInSpan(stride, rowB, startB, sizeB, j)
    ensures i != j
  {
    if rowA < rowB {
      RowsApart(rowA, rowB, stride);
    } else if rowB < rowA {
      RowsApart(rowB, rowA, stride);
    }
  }

  /** Disjoint areas that share a row are side by side. */
  lemma ColumnsApart(a: DisplayArea, b: DisplayArea, format: Format, row: nat)
    requires IsAligned(format, a) && IsAligned(format, b) && Disjoint(a, b)
    requires a.y <= row < a.y + a.height && b.y <= row < b.y + b.height
    ensures a.x * BitsPerPixel(format) / 8 + BytesPerRow(a.width, format) <= b.x * BitsPerPixel(format) / 8
         || b.x * BitsPerPixel(format) / 8 + BytesPerRow(b.width, format) <= a.x * BitsPerPixel(format) / 8
  {
    if a.x + a.width <= b.x {
      SideBySide(a, b, format);
    } else {
      SideBySide(b, a, format);
    }
  }

  lemma RowBehind(y: nat, row: nat, stride: nat, start: nat)
    ensures (y + row) * stride + start == y * stride + start + row * stride
    ensures row * stride >= 0 && y * stride >= 0
  {
    Distribute(stride, y, row);
    ProductIsNat(row, stride);
    ProductIsNat(y, stride);
  }

  lemma RowOfWindow(surface: Surface, area: DisplayArea, row: nat, i: nat)
    requires IsValid(surface)
    requires Contains(surface.size, area) && IsAligned(surface.format, area) && !IsEmpty(area)
    requires row < area.height && i < BytesPerRow(area.width, surface.format)
    ensures
      var offset := WindowOf(surface.size, surface.format, surface.strideInBytes, area).offset;
      TouchesInRow(surface.format, surface.strideInBytes, area, area.y + row, offset + row * surface.strideInBytes + i)
  {
    RowBehind(area.y, row, surface.strideInBytes, area.x * BitsPerPixel(surface.format) / 8);
  }

  /** The rows of the windows of disjoint areas have no byte in common. */
  lemma DisjointWindows(surface: Surface, a: DisplayArea, b: DisplayArea, rowOfA: nat, rowOfB: nat, i: nat, j: nat)
    requires IsValid(surface)
    requires Contains(surface.size, a) && IsAligned(surface.format, a) && !IsEmpty(a)
    requires Contains(surface.size, b) && IsAligned(surface.format, b) && !IsEmpty(b)
    requires Disjoint(a, b)
    requires rowOfA < a.height && i < BytesPerRow(a.width, surface.format)
    requires rowOfB < b.height && j < BytesPerRow(b.width, surface.format)
    ensures WindowOf(surface.size, surface.format, surface.strideInBytes, a).offset + rowOfA * surface.strideInBytes + i
         != WindowOf(surface.size, surface.format, surface.strideInBytes, b).offset + rowOfB * surface.strideInBytes + j
  {
    RowOfWindow(surface, a, rowOfA, i);
    RowOfWindow(surface, b, rowOfB, j);
    ProductIsNat(rowOfA, surface.strideInBytes);
    ProductIsNat(rowOfB, surface.strideInBytes);
    DisjointAreasTouchDisjointBytes(surface, a, b, a.y + rowOfA, b.y + rowOfB,
      WindowOf(surface.size, surface.format, surface.strideInBytes, a).offset + rowOfA * surface.strideInBytes + i,
      WindowOf(surface.size, surface.format, surface.strideInBytes, b).offset + rowOfB * surface.strideInBytes + j);
  }
}
