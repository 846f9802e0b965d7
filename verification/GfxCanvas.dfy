/**
 `GFXcanvas1`: a bitmap of one bit per pixel, eight to a byte, that may be
 viewed in four rotations.  The fast lines are compared with a plain loop of
 `drawPixel`.
 */
module GfxCanvas {
  import opened GfxLine
  import opened Integers

  // ----- bits -----------------------------------------------------------------------------

  /** `0x80 >> i`. */
  function Mask(i: nat): bv8
    requires i < 8
  {
    if i < 4 then (if i < 2 then (if i == 0 then 0x80 else 0x40) else (if i == 2 then 0x20 else 0x10))
    else (if i < 6 then (if i == 4 then 0x08 else 0x04) else (if i == 6 then 0x02 else 0x01))
  }

  predicate Has(b: bv8, j: nat)
    requires j < 8
  {
    b & Mask(j) != 0
  }

  /** `b |= m` or `b &= ~m`. */
  function Apply(b: bv8, m: bv8, on: bool): bv8 { if on then b | m else b & !m }

  lemma ApplyBit(b: bv8, m: bv8, on: bool, j: nat)
    requires j < 8
    ensures Has(Apply(b, m, on), j) == if Has(m, j) then on else Has(b, j)
  {
  }

  lemma MaskBit(i: nat, j: nat)
    requires i < 8 && j < 8
    ensures Has(Mask(i), j) <==> i == j
  {
  }

  lemma OrBit(a: bv8, b: bv8, j: nat)
    requires j < 8
    ensures Has(a | b, j) <==> Has(a, j) || Has(b, j)
  {
  }

  lemma ConstantBit(j: nat)
    requires j < 8
    ensures Has(0xFF, j) && !Has(0, j)
  {
  }

  // ----- the image ------------------------------------------------------------------------

  /** The size of the canvas and how it is turned. */
  datatype Geometry = Geometry(width: nat, height: nat, rotation: nat)

  /** Rows of bits; a row fills whole bytes. */
  type Image = seq<seq<bool>>

  function RowBytes(g: Geometry): nat { (g.width + 7) / 8 }

  predicate Fits(g: Geometry, img: Image) {
    |img| == g.height && forall y | 0 <= y < |img| :: |img[y]| == 8 * RowBytes(g)
  }

  function ViewWidth(g: Geometry): nat { if g.rotation % 2 == 1 then g.height else g.width }

  function ViewHeight(g: Geometry): nat { if g.rotation % 2 == 1 then g.width else g.height }

  predicate Visible(g: Geometry, v: Pixel) { 0 <= v.x < ViewWidth(g) && 0 <= v.y < ViewHeight(g) }

  /** Where a pixel of the turned view is in the bitmap. */
  function Raw(g: Geometry, v: Pixel): Pixel {
    match g.rotation
    case 1 => Pixel(g.width - 1 - v.y, v.x)
    case 2 => Pixel(g.width - 1 - v.x, g.height - 1 - v.y)
    case 3 => Pixel(v.y, g.height - 1 - v.x)
    case _ => v
  }

  /** Where a pixel of the bitmap is in the turned view. */
  function View(g: Geometry, r: Pixel): Pixel {
    match g.rotation
    case 1 => Pixel(r.y, g.width - 1 - r.x)
    case 2 => Pixel(g.width - 1 - r.x, g.height - 1 - r.y)
    case 3 => Pixel(g.height - 1 - r.y, r.x)
    case _ => r
  }

  predicate InBitmap(g: Geometry, r: Pixel) { 0 <= r.x < g.width && 0 <= r.y < g.height }

  lemma ViewRaw(g: Geometry, v: Pixel, r: Pixel)
    requires g.rotation < 4
    ensures Raw(g, v) == r <==> View(g, r) == v
    ensures Visible(g, v) <==> InBitmap(g, Raw(g, v))
  {
  }

  /** The four rotations are quarter turns: the next one shows what a quarter turn of the view shows. */
  lemma QuarterTurn(g: Geometry, v: Pixel)
    requires g.rotation < 4
    ensures Raw(g.(rotation := (g.rotation + 1) % 4), v) == Raw(g, Pixel(ViewWidth(g) - 1 - v.y, v.x))
    ensures Visible(g.(rotation := (g.rotation + 1) % 4), v) <==> Visible(g, Pixel(ViewWidth(g) - 1 - v.y, v.x))
  {
  }

  /** One pixel of the view changes colour, if it can be seen. */
  function Paint(g: Geometry, img: Image, v: Pixel, on: bool): (r: Image)
    requires Fits(g, img) && g.rotation < 4
    ensures Fits(g, r)
  {
    if !Visible(g, v) then img
    else
      ViewRaw(g, v, Raw(g, v));
      var r := Raw(g, v);
      img[r.y := img[r.y][r.x := on]]
  }

  /** The plain loop: `n` pixels from `v` on, down or to the right. */
  function PaintRun(g: Geometry, img: Image, v: Pixel, down: bool, n: nat, on: bool): (r: Image)
    requires Fits(g, img) && g.rotation < 4
    ensures Fits(g, r)
  {
    if n == 0 then img else Paint(g, PaintRun(g, img, v, down, n - 1, on), Along(v, down, n - 1), on)
  }

  function Along(v: Pixel, down: bool, i: int): Pixel {
    if down then Pixel(v.x, v.y + i) else Pixel(v.x + i, v.y)
  }

  /** The bit is one of the pixels of the run. */
  predicate OnRun(g: Geometry, v: Pixel, down: bool, n: nat, r: Pixel) {
    var u := View(g, r);
    InBitmap(g, r) && if down then u.x == v.x && v.y <= u.y < v.y + n else u.y == v.y && v.x <= u.x < v.x + n
  }

  /** After the loop exactly the bits of the run have the colour; the others are as before. */
  lemma {:induction false} RunBit(g: Geometry, img: Image, v: Pixel, down: bool, n: nat, on: bool, r: Pixel)
    requires Fits(g, img) && g.rotation < 4
    requires 0 <= r.y < g.height && 0 <= r.x < 8 * RowBytes(g)
    ensures PaintRun(g, img, v, down, n, on)[r.y][r.x] == if OnRun(g, v, down, n, r) then on else img[r.y][r.x]
  {
    if n > 0 {
      RunBit(g, img, v, down, n - 1, on, r);
      ViewRaw(g, Along(v, down, n - 1), r);
    }
  }

  /** An image with the bits of a run changed is the result of the loop. */
  lemma RunImage(g: Geometry, img: Image, v: Pixel, down: bool, n: nat, on: bool, out: Image)
    requires Fits(g, img) && Fits(g, out) && g.rotation < 4
    requires forall y, x | 0 <= y < g.height && 0 <= x < 8 * RowBytes(g) ::
      out[y][x] == if OnRun(g, v, down, n, Pixel(x, y)) then on else img[y][x]
    ensures out == PaintRun(g, img, v, down, n, on)
  {
    var run := PaintRun(g, img, v, down, n, on);
    hide OnRun, PaintRun, RowBytes;
    forall y | 0 <= y < g.height ensures out[y] == run[y] {
      forall x | 0 <= x < 8 * RowBytes(g) ensures out[y][x] == run[y][x] {
        RunBit(g, img, v, down, n, on, Pixel(x, y));
      }
    }
  }

  // ----- the bytes ------------------------------------------------------------------------

  predicate Sized(g: Geometry, bytes: seq<bv8>) { |bytes| == RowBytes(g) * g.height }

  /** Byte `k` of row `y`. */
  function Index(g: Geometry, y: nat, k: nat): (i: nat)
    requires y < g.height && k < RowBytes(g)
    ensures i < RowBytes(g) * g.height
  {
    Rows(RowBytes(g), y, g.height);
    k + y * RowBytes(g)
  }

  lemma Rows(c: nat, a: int, b: int)
    requires 0 <= a < b
    ensures 0 <= a * c && a * c + c <= c * b
  {
    var d := b - a - 1;
    assert c * b == c * a + c * d + c && c * d >= 0;
  }

  lemma IndexDistinct(g: Geometry, y: nat, k: nat, z: nat, l: nat)
    requires y < g.height && k < RowBytes(g) && z < g.height && l < RowBytes(g)
    ensures Index(g, y, k) == Index(g, z, l) <==> y == z && k == l
  {
    var c := RowBytes(g);
    if y < z {
      Rows(c, y, z);
    } else if z < y {
      Rows(c, z, y);
    }
  }

  predicate InRows(g: Geometry, x: int, y: int) { 0 <= x < 8 * RowBytes(g) && 0 <= y < g.height }

  function BitOf(g: Geometry, bytes: seq<bv8>, x: int, y: int): bool
    requires Sized(g, bytes) && InRows(g, x, y)
  {
    Has(bytes[Index(g, y, x / 8)], x % 8)
  }

  function RowOf(g: Geometry, bytes: seq<bv8>, y: int): (r: seq<bool>)
    requires Sized(g, bytes) && 0 <= y < g.height
    ensures |r| == 8 * RowBytes(g) && forall x | 0 <= x < |r| :: r[x] == BitOf(g, bytes, x, y)
  {
    seq(8 * RowBytes(g), x requires 0 <= x < 8 * RowBytes(g) => BitOf(g, bytes, x, y))
  }

  function ImageOf(g: Geometry, bytes: seq<bv8>): (img: Image)
    requires Sized(g, bytes)
    ensures Fits(g, img) && forall x, y | InRows(g, x, y) :: img[y][x] == BitOf(g, bytes, x, y)
  {
    seq(g.height, y requires 0 <= y < g.height => RowOf(g, bytes, y))
  }

  /** `m` is applied to one byte: its bits change where the mask has one. */
  lemma ByteApplied(g: Geometry, bytes: seq<bv8>, y: nat, k: nat, m: bv8, on: bool, out: seq<bv8>)
    requires Sized(g, bytes) && y < g.height && k < RowBytes(g)
    requires out == bytes[Index(g, y, k) := Apply(bytes[Index(g, y, k)], m, on)]
    ensures forall u, v | InRows(g, u, v) ::
              BitOf(g, out, u, v) == if v == y && u / 8 == k && Has(m, u % 8) then on else BitOf(g, bytes, u, v)
  {
    hide Has, Apply;
    forall u, v | InRows(g, u, v)
      ensures BitOf(g, out, u, v) == if v == y && u / 8 == k && Has(m, u % 8) then on else BitOf(g, bytes, u, v)
    {
      IndexDistinct(g, v, u / 8, y, k);
      ApplyBit(bytes[Index(g, y, k)], m, on, u % 8);
    }
  }

  // ----- the canvas -----------------------------------------------------------------------

  class GFXcanvas1 {
    const width: nat
    const height: nat
    var rotation: nat
    var buffer: array?<bv8>

    ghost predicate Valid()
      reads this, buffer
    {
      && width <= 0x7FFF && height <= 0x7FFF && rotation < 4
      && (buffer != null ==> Sized(Geo(), buffer[..]))
    }

    function Geo(): Geometry
      reads this
    {
      Geometry(width, height, rotation)
    }

    ghost function Picture(): (img: Image)
      requires Valid() && buffer != null
      reads this, buffer
      ensures Fits(Geo(), img)
    {
      ImageOf(Geo(), buffer[..])
    }

    /**
     All pixels are off.  The size of the buffer is computed in 16 bits, so it
     is too small for a canvas of 65536 bytes or more; `hasMemory` says whether
     `malloc` succeeds.
     */
    constructor (w: nat, h: nat, hasMemory: bool)
      requires w <= 0x7FFF && h <= 0x7FFF
      ensures width == w && height == h && rotation == 0
      ensures buffer != null <==> hasMemory
      ensures buffer != null ==> fresh(buffer) && forall i | 0 <= i < buffer.Length :: buffer[i] == 0
      ensures Valid() <==> !hasMemory || (w + 7) / 8 * h < 0x1_0000
      ensures Valid() && buffer != null ==> forall x, y | InRows(Geo(), x, y) :: !Picture()[y][x]
    {
      width, height, rotation := w, h, 0;
      buffer := null;
      new;
      if hasMemory {
        var bytes := (w + 7) / 8 * h % 0x1_0000;
        buffer := new bv8[bytes](_ => 0);
        if Valid() {
          forall x, y | InRows(Geo(), x, y) ensures !Picture()[y][x] {
            ConstantBit(x % 8);
          }
        }
      }
    }

    /** `setRotation`. */
    method SetRotation(x: nat)
      requires Valid() && x < 256
      modifies this`rotation
      ensures Valid() && rotation == x % 4
    {
      rotation := x % 4;
    }

    /** `*ptr |= m` or `*ptr &= ~m`, where `ptr` is at byte `k` of row `y`. */
    method ApplyAt(ptr: nat, m: bv8, on: bool, ghost y: nat, ghost k: nat)
      requires Valid() && buffer != null && y < height && k < RowBytes(Geo()) && ptr == Index(Geo(), y, k)
      modifies buffer
      ensures Valid()
      ensures forall u, v | InRows(Geo(), u, v) ::
        Picture()[v][u] == if v == y && u / 8 == k && Has(m, u % 8) then on else old(Picture()[v][u])
    {
      hide Index, Has, Mask, RowBytes;
      ghost var bytes := buffer[..];
      buffer[ptr] := Apply(buffer[ptr], m, on);
      assert buffer[..] == bytes[ptr := Apply(bytes[ptr], m, on)];
      ByteApplied(Geo(), bytes, y, k, m, on, buffer[..]);
    }

    /** The rotation at the beginning of `drawPixel` and `getPixel`, in 16 bits. */
    method Rotated(x: int, y: int) returns (r: Pixel)
      requires Valid() && InInt16(x) && InInt16(y)
      ensures InBitmap(Geo(), r) <==> Visible(Geo(), Pixel(x, y))
      ensures Visible(Geo(), Pixel(x, y)) ==> r == Raw(Geo(), Pixel(x, y))
    {
      match rotation
      case 1 => r := Pixel(Int16(width - 1 - y), x);
      case 2 => r := Pixel(Int16(width - 1 - x), Int16(height - 1 - y));
      case 3 => r := Pixel(y, Int16(height - 1 - x));
      case _ => r := Pixel(x, y);
    }

    /** `drawPixel`. */
    method DrawPixel(x: int, y: int, color: nat)
      requires Valid() && InInt16(x) && InInt16(y)
      modifies buffer
      ensures Valid() && buffer == old(buffer)
      ensures buffer != null ==> Picture() == Paint(Geo(), old(Picture()), Pixel(x, y), color != 0)
    {
      hide Index, Has, Mask, RowBytes, Int16;
      if buffer != null {
        if x < 0 || y < 0 || x >= ViewWidth(Geo()) || y >= ViewHeight(Geo()) {
          return;
        }
        var r := Rotated(x, y);
        PixelByte(Geo(), r);
        ApplyAt(r.x / 8 + r.y * ((width + 7) / 8), Mask(r.x % 8), color != 0, r.y, r.x / 8);
        PixelPainted(Geo(), old(Picture()), Picture(), Pixel(x, y), r, color != 0);
      }
    }

    /** What `getRawPixel` observes. */
    ghost predicate RawPixel(r: Pixel)
      requires Valid()
      reads this, buffer
    {
      buffer != null && InBitmap(Geo(), r) && (PixelByte(Geo(), r); Picture()[r.y][r.x])
    }

    /** `getRawPixel`. */
    method GetRawPixel(x: int, y: int) returns (on: bool)
      requires Valid()
      ensures on <==> RawPixel(Pixel(x, y))
    {
      hide Mask, Index;
      if x < 0 || y < 0 || x >= width || y >= height {
        return false;
      }
      if buffer != null {
        PixelByte(Geo(), Pixel(x, y));
        return buffer[x / 8 + y * ((width + 7) / 8)] & Mask(x % 8) != 0;
      }
      return false;
    }

    /** `getPixel`: pixels outside the view are off. */
    method GetPixel(x: int, y: int) returns (on: bool)
      requires Valid() && InInt16(x) && InInt16(y)
      ensures on <==> Visible(Geo(), Pixel(x, y)) && RawPixel(Raw(Geo(), Pixel(x, y)))
    {
      hide Int16;
      var r := Rotated(x, y);
      on := GetRawPixel(r.x, r.y);
    }

    // ----- lines --------------------------------------------------------------------------

    /** Column `x` has the colour from `from` up to `to`; the rest of the picture is `before`. */
    ghost predicate ColumnPainted(before: Image, x: int, from: int, to: int, on: bool)
      requires Valid() && buffer != null && Fits(Geo(), before)
      reads this, buffer
    {
      forall u, v | InRows(Geo(), u, v) :: Picture()[v][u] == if u == x && from <= v < to then on else before[v][u]
    }

    /** One byte of the loop of `drawFastRawVLine`. */
    method ExtendColumn(ptr: nat, on: bool, ghost before: Image, x: nat, ghost from: nat, ghost y: nat)
      requires Valid() && buffer != null && x < width && from <= y < height && Fits(Geo(), before)
      requires ptr == Address(x, y) && ColumnPainted(before, x, from, y, on)
      modifies buffer
      ensures Valid() && ColumnPainted(before, x, from, y + 1, on)
    {
      hide Has, Mask, RowBytes, Index;
      PixelByte(Geo(), Pixel(x, y));
      MaskBits(x);
      ApplyAt(ptr, Mask(x % 8), on, y, x / 8);
    }

    /** The byte of a pixel, as the source computes its place. */
    function Address(x: nat, y: nat): nat { x / 8 + y * ((width + 7) / 8) }

    lemma NextAddress(x: nat, y: nat)
      ensures Address(x, y + 1) == Address(x, y) + (width + 7) / 8
    {
      Distribute(y, (width + 7) / 8);
    }

    /** `drawFastRawVLine`. */
    method DrawFastRawVLine(x: nat, y: nat, h: nat, color: nat)
      requires Valid() && buffer != null && (h > 0 ==> x < width && y + h <= height)
      modifies buffer
      ensures Valid() && ColumnPainted(old(Picture()), x, y, y + h, color != 0)
    {
      hide Has, Mask, RowBytes, Index, Apply, ColumnPainted, Address;
      ghost var before := Picture();
      StartColumn(before, x, y, color != 0);
      var rowBytes := (width + 7) / 8;
      var ptr := Address(x, y);
      var i := 0;
      ghost var row := y;
      while i < h
        invariant Valid() && 0 <= i <= h && row == y + i && ptr == Address(x, row)
        invariant ColumnPainted(before, x, y, row, color != 0)
      {
        ExtendColumn(ptr, color > 0, before, x, y, row);
        NextAddress(x, row);
        i, row := i + 1, row + 1;
        ptr := ptr + rowBytes;
      }
    }

    lemma StartColumn(before: Image, x: nat, y: nat, on: bool)
      requires Valid() && buffer != null && before == Picture()
      ensures ColumnPainted(before, x, y, y, on)
    {
    }

    /** Row `y` has the colour from `from` up to `to`; the rest of the picture is `before`. */
    ghost predicate RowPainted(before: Image, y: int, from: int, to: int, on: bool)
      requires Valid() && buffer != null && Fits(Geo(), before)
      reads this, buffer
    {
      forall u, v | InRows(Geo(), u, v) :: Picture()[v][u] == if v == y && from <= u < to then on else before[v][u]
    }

    /** A mask with the bits of byte `k` from `to` up to `next` continues the row. */
    method ExtendRow(ptr: nat, m: bv8, on: bool, ghost before: Image, ghost y: nat, ghost k: nat,
                     ghost from: nat, ghost to: nat, ghost next: nat)
      requires Valid() && buffer != null && y < height && k < RowBytes(Geo()) && ptr == Index(Geo(), y, k)
      requires Fits(Geo(), before) && from <= to <= next && 8 * k <= to && next <= 8 * k + 8
      requires forall j | 0 <= j < 8 :: Has(m, j) <==> to <= 8 * k + j < next
      requires RowPainted(before, y, from, to, on)
      modifies buffer
      ensures Valid() && RowPainted(before, y, from, next, on)
    {
      hide Has, Index, RowBytes;
      ApplyAt(ptr, m, on, y, k);
      assert forall u: int {:trigger u % 8} | 0 <= u && u / 8 == k :: Has(m, u % 8) <==> to <= u < next;
    }

    /** `memset` of whole bytes. */
    method Memset(ptr: nat, on: bool, n: nat, ghost before: Image, ghost y: nat, ghost k: nat, ghost from: nat)
      requires Valid() && buffer != null && y < height && k + n <= RowBytes(Geo())
      requires k < RowBytes(Geo()) && ptr == Index(Geo(), y, k) && from <= 8 * k
      requires Fits(Geo(), before) && RowPainted(before, y, from, 8 * k, on)
      modifies buffer
      ensures Valid() && RowPainted(before, y, from, 8 * (k + n), on)
    {
      hide Has, RowBytes;
      var i := 0;
      while i < n
        invariant Valid() && 0 <= i <= n && RowPainted(before, y, from, 8 * (k + i), on)
      {
        FullByte(on);
        assert Index(Geo(), y, k + i) == ptr + i;
        ExtendRow(ptr + i, 0xFF, on, before, y, k + i, from, 8 * (k + i), 8 * (k + i) + 8);
        i := i + 1;
      }
    }

    /** `drawFastRawHLine`. */
    method DrawFastRawHLine(x: nat, y: nat, w: nat, color: nat)
      requires Valid() && buffer != null
      requires w > 0 || x % 8 > 0 ==> x < width && y < height && x + w <= width
      modifies buffer
      ensures Valid() && RowPainted(old(Picture()), y, x, x + w, color != 0)
    {
      hide Has, Mask, RowBytes, Index, Apply, RowPainted;
      ghost var before := Picture();
      var rowBytes := (width + 7) / 8;
      var ptr := x / 8 + y * rowBytes;
      ghost var k := x / 8;
      if w > 0 || x % 8 > 0 {
        PixelByte(Geo(), Pixel(x, y));
      }
      StartRow(before, y, x, color != 0);
      var remaining := w;
      if x % 8 > 0 {
        var mask;
        mask, remaining := StartMask(x % 8, w);
        ExtendRow(ptr, mask, color > 0, before, y, k, x, x, x + w - remaining);
        ptr, k := ptr + 1, k + 1;
      }
      if remaining > 0 {
        RowEnd(Geo(), y, x / 8, k, remaining);
        RestOfRow(ptr, remaining, color, before, y, k, x);
      }
    }

    /** The whole bytes of a horizontal line, and what there is in the byte behind them. */
    method RestOfRow(ptr0: nat, remaining: nat, color: nat, ghost before: Image, ghost y: nat, ghost k: nat,
                     ghost from: nat)
      requires Valid() && buffer != null && y < height && k < RowBytes(Geo()) && ptr0 == Index(Geo(), y, k)
      requires k + remaining / 8 <= RowBytes(Geo()) && from <= 8 * k
      requires remaining % 8 > 0 ==>
        k + remaining / 8 < RowBytes(Geo()) && Index(Geo(), y, k + remaining / 8) == ptr0 + remaining / 8
      requires Fits(Geo(), before) && RowPainted(before, y, from, 8 * k, color != 0)
      modifies buffer
      ensures Valid() && RowPainted(before, y, from, 8 * k + remaining, color != 0)
    {
      hide Has, Mask, RowBytes, Index, Apply, RowPainted;
      var ptr, whole, last := ptr0, remaining / 8, remaining % 8;
      Memset(ptr, color > 0, whole, before, y, k, from);
      if last > 0 {
        var mask := EndMask(last);
        ptr := ptr + whole;
        ExtendRow(ptr, mask, color > 0, before, y, k + whole, from, 8 * (k + whole), 8 * k + remaining);
      }
    }

    /** The end of `drawFastVLine`: a vertical line inside the view, in each rotation. */
    method VisibleVLine(x: nat, y: nat, h: nat, color: nat)
      requires Valid() && buffer != null && x < ViewWidth(Geo()) && y + h <= ViewHeight(Geo())
      requires if y < ViewHeight(Geo()) then y + h > 0 else y == 0
      modifies buffer
      ensures Valid() && Picture() == PaintRun(Geo(), old(Picture()), Pixel(x, y), true, h, color != 0)
    {
      hide PaintRun, RowBytes;
      ghost var before := Picture();
      match rotation {
        case 1 => DrawFastRawHLine(width - 1 - y - (h - 1), x, h, color);
        case 2 => DrawFastRawVLine(width - 1 - x, height - 1 - y - (h - 1), h, color);
        case 3 => DrawFastRawHLine(y, height - 1 - x, h, color);
        case _ => DrawFastRawVLine(x, y, h, color);
      }
      BitsRun(before, Pixel(x, y), true, h, color != 0);
    }

    /** The end of `drawFastHLine`. */
    method VisibleHLine(x: nat, y: nat, w: nat, color: nat)
      requires Valid() && buffer != null && y < ViewHeight(Geo()) && x + w <= ViewWidth(Geo())
      requires if x < ViewWidth(Geo()) then x + w > 0 else x == 0
      modifies buffer
      ensures Valid() && Picture() == PaintRun(Geo(), old(Picture()), Pixel(x, y), false, w, color != 0)
    {
      hide PaintRun, RowBytes;
      ghost var before := Picture();
      match rotation {
        case 1 => DrawFastRawVLine(width - 1 - y, x, w, color);
        case 2 => DrawFastRawHLine(width - 1 - x - (w - 1), height - 1 - y, w, color);
        case 3 => DrawFastRawVLine(y, height - 1 - x - (w - 1), w, color);
        case _ => DrawFastRawHLine(x, y, w, color);
      }
      BitsRun(before, Pixel(x, y), false, w, color != 0);
    }

    lemma BitsRun(before: Image, v: Pixel, down: bool, n: nat, on: bool)
      requires Valid() && buffer != null && Fits(Geo(), before)
      requires forall x, y | InRows(Geo(), x, y) ::
        Picture()[y][x] == if OnRun(Geo(), v, down, n, Pixel(x, y)) then on else before[y][x]
      ensures Picture() == PaintRun(Geo(), before, v, down, n, on)
    {
      hide OnRun, PaintRun, RowBytes;
      assert forall y, x | 0 <= y < height && 0 <= x < 8 * RowBytes(Geo()) :: InRows(Geo(), x, y);
      RunImage(Geo(), before, v, down, n, on, Picture());
    }

    /** `drawFastVLine`, which takes a negative height as one that goes up. */
    method DrawFastVLine(x0: int, y0: int, h0: int, color: nat)
      requires Valid() && buffer != null && InInt16(x0) && InInt16(y0) && InInt16(h0)
      modifies buffer
      ensures Valid()
      ensures Picture() == FastLine(Geo(), old(Picture()), x0, y0, h0, true, color != 0)
    {
      hide PaintRun, Int16, First, Drawn;
      var x := x0;
      var y, h := Upward(y0, h0);
      if x < 0 || x >= ViewWidth(Geo()) || y >= ViewHeight(Geo()) || y + h - 1 < 0 {
        NothingVisible(Geo(), Picture(), Crossing(x0, First(y0, h0), true), true, Drawn(y0, h0), color != 0);
        return;
      }
      if y < 0 {
        h := Int16(h + y);
        y := 0;
      }
      if y + h > ViewHeight(Geo()) {
        h := Int16(ViewHeight(Geo()) - y);
      }
      SameRun(Geo(), Picture(), Crossing(x0, First(y0, h0), true), true, Drawn(y0, h0), Pixel(x, y), h, color != 0);
      VisibleVLine(x, y, h, color);
    }

    /** `drawFastHLine`, which takes a negative width as one that goes left. */
    method DrawFastHLine(x0: int, y0: int, w0: int, color: nat)
      requires Valid() && buffer != null && InInt16(x0) && InInt16(y0) && InInt16(w0)
      modifies buffer
      ensures Valid()
      ensures Picture() == FastLine(Geo(), old(Picture()), y0, x0, w0, false, color != 0)
    {
      hide PaintRun, Int16, First, Drawn;
      var y := y0;
      var x, w := Upward(x0, w0);
      if y < 0 || y >= ViewHeight(Geo()) || x >= ViewWidth(Geo()) || x + w - 1 < 0 {
        NothingVisible(Geo(), Picture(), Crossing(y0, First(x0, w0), false), false, Drawn(x0, w0), color != 0);
        return;
      }
      if x < 0 {
        w := Int16(w + x);
        x := 0;
      }
      if x + w >= ViewWidth(Geo()) {
        w := Int16(ViewWidth(Geo()) - x);
      }
      SameRun(Geo(), Picture(), Crossing(y0, First(x0, w0), false), false, Drawn(x0, w0), Pixel(x, y), w, color != 0);
      VisibleHLine(x, y, w, color);
    }

    lemma StartRow(before: Image, y: nat, x: nat, on: bool)
      requires Valid() && buffer != null && before == Picture()
      ensures RowPainted(before, y, x, x, on)
    {
    }
  }

  lemma Distribute(a: nat, c: nat)
    ensures (a + 1) * c == a * c + c
  {
  }

  /** The bytes that hold `remaining` bits from byte `k` on are bytes of the row. */
  lemma RowEnd(g: Geometry, y: nat, j: nat, k: nat, remaining: nat)
    requires y < g.height && j <= k <= j + 1 && remaining > 0 && 8 * k + remaining <= g.width
    ensures k < RowBytes(g) && k + remaining / 8 <= RowBytes(g)
    ensures remaining % 8 > 0 ==> k + remaining / 8 < RowBytes(g)
    ensures j < RowBytes(g) && Index(g, y, k) == Index(g, y, j) + (k - j)
    ensures remaining % 8 > 0 ==> Index(g, y, k + remaining / 8) == Index(g, y, k) + remaining / 8
  {
  }

  /** Where a line of a possibly negative length begins. */
  function Low(pos: int, length: int): int { if length < 0 then pos + length + 1 else pos }

  /** The far end of a line is below -32768, so that its coordinate wraps around. */
  predicate Wraps(pos: int, length: int) { -0x8000 < length < 0 && Low(pos, length) < -0x8000 }

  /** A length whose opposite is no `int16_t`, from the largest coordinate: the line seems to end in front of 0. */
  predicate Lost(pos: int, length: int) { length == -0x8000 && pos == 0x7FFF }

  /** Where a fast line begins, and how long it is. */
  function First(pos: int, length: int): int {
    if Wraps(pos, length) then Low(pos, length) + 0x1_0000 else Low(pos, length)
  }

  function Drawn(pos: int, length: int): nat {
    if Lost(pos, length) || (length == -0x8000 && pos < -1) then 0 else Abs(length)
  }

  function Crossing(across: int, along: int, down: bool): Pixel {
    if down then Pixel(across, along) else Pixel(along, across)
  }

  /** How both fast lines turn a negative length around; what is in front of 0 does not matter. */
  method Upward(pos: int, length: int) returns (p: int, n: int)
    requires InInt16(pos) && InInt16(length)
    ensures InInt16(p) && InInt16(n) && (0 <= p && p + n - 1 >= 0 ==> n >= 0)
    ensures var first, end := First(pos, length), First(pos, length) + Drawn(pos, length);
            && (first < end && 0 < end ==> Max(p, 0) == Max(first, 0) && p + n == end)
            && (first >= end || end <= 0 ==> p + n <= 0 || (0 <= p && n == 0))
  {
    hide First, Drawn, Int16;
    UpwardRun(pos, length);
    p, n := pos, length;
    if n < 0 {
      WrapsOnce(n * -1);
      n := Int16(n * -1);
      WrapsOnce(p - (n - 1));
      p := Int16(p - (n - 1));
      if p < 0 {
        WrapsOnce(n + p);
        n := Int16(n + p);
        p := 0;
      }
    }
  }

  lemma WrapsOnce(v: int)
    requires -0x1_8000 <= v < 0x1_8000
    ensures Int16(v) == if v < -0x8000 then v + 0x1_0000 else if v > 0x7FFF then v - 0x1_0000 else v
  {
  }

  /** The same without the arithmetic of `int16_t`. */
  function TurnedUp(pos: int, length: int): Pixel {
    if length >= 0 then Pixel(pos, length)
    else if length == -0x8000 && pos < -1 then Pixel(pos + 0x8001, length)
    else if Lost(pos, length) then Pixel(0, length)
    else if Wraps(pos, length) then Pixel(Low(pos, length) + 0x1_0000, -length)
    else if Low(pos, length) < 0 then Pixel(0, pos + 1)
    else Pixel(Low(pos, length), -length)
  }

  lemma UpwardRun(pos: int, length: int)
    requires InInt16(pos) && InInt16(length)
    ensures var t := TurnedUp(pos, length);
            var first, end := First(pos, length), First(pos, length) + Drawn(pos, length);
            && (0 <= t.x && t.x + t.y - 1 >= 0 ==> t.y >= 0)
            && (first < end && 0 < end ==> Max(t.x, 0) == Max(first, 0) && t.x + t.y == end)
            && (first >= end || end <= 0 ==> t.x + t.y <= 0 || (0 <= t.x && t.y == 0))
  {
  }

  /** What `drawFastVLine` and `drawFastHLine` draw. */
  function FastLine(g: Geometry, img: Image, across: int, pos: int, length: int, down: bool, on: bool): Image
    requires Fits(g, img) && g.rotation < 4
  {
    PaintRun(g, img, Crossing(across, First(pos, length), down), down, Drawn(pos, length), on)
  }

  /** The plain loop of `drawPixel` over the same line. */
  function PlainLine(g: Geometry, img: Image, across: int, pos: int, length: int, down: bool, on: bool): Image
    requires Fits(g, img) && g.rotation < 4
  {
    PaintRun(g, img, Crossing(across, Low(pos, length), down), down, Abs(length), on)
  }

  /** The place at which a line that goes wrong can be told from the plain loop. */
  function Telltale(across: int, pos: int, length: int, down: bool): Pixel {
    Crossing(across, if Lost(pos, length) then 0 else First(pos, length), down)
  }

  /**
   A fast line is the plain loop on every picture exactly if nothing wraps
   around, or what does is out of sight.
   */
  lemma FastLineExact(g: Geometry, across: int, pos: int, length: int, down: bool)
    requires g.rotation < 4 && InInt16(pos) && InInt16(length)
    ensures (forall img, on | Fits(g, img) ::
               FastLine(g, img, across, pos, length, down, on) == PlainLine(g, img, across, pos, length, down, on))
       <==> (!Wraps(pos, length) && !Lost(pos, length)) || !Visible(g, Telltale(across, pos, length, down))
  {
    hide PaintRun, FastLine, PlainLine, Fits;
    if (!Wraps(pos, length) && !Lost(pos, length)) || !Visible(g, Telltale(across, pos, length, down)) {
      forall img, on | Fits(g, img)
        ensures FastLine(g, img, across, pos, length, down, on) == PlainLine(g, img, across, pos, length, down, on)
      {
        FastLineRight(g, img, across, pos, length, down, on);
      }
    } else {
      var img := FastLineWrong(g, across, pos, length, down);
    }
  }

  lemma FastLineRight(g: Geometry, img: Image, across: int, pos: int, length: int, down: bool, on: bool)
    requires Fits(g, img) && g.rotation < 4 && InInt16(pos) && InInt16(length)
    requires (!Wraps(pos, length) && !Lost(pos, length)) || !Visible(g, Telltale(across, pos, length, down))
    ensures FastLine(g, img, across, pos, length, down, on) == PlainLine(g, img, across, pos, length, down, on)
  {
    hide PaintRun;
    SameRun(g, img, Crossing(across, Low(pos, length), down), down, Abs(length),
            Crossing(across, First(pos, length), down), Drawn(pos, length), on);
  }

  /** On a blank picture, the pixel at the telltale place is set by one of the two and not by the other. */
  lemma FastLineWrong(g: Geometry, across: int, pos: int, length: int, down: bool) returns (img: Image)
    requires g.rotation < 4 && InInt16(pos) && InInt16(length)
    requires Wraps(pos, length) || Lost(pos, length)
    requires Visible(g, Telltale(across, pos, length, down))
    ensures Fits(g, img)
    ensures FastLine(g, img, across, pos, length, down, true) != PlainLine(g, img, across, pos, length, down, true)
  {
    hide PaintRun, RowBytes, Index, Raw, View, BitOf, Has;
    img := Blank(g);
    var v := Telltale(across, pos, length, down);
    var r := Raw(g, v);
    ViewRaw(g, v, r);
    PixelByte(g, r);
    assert InRows(g, r.x, r.y);
    RunBit(g, img, Crossing(across, First(pos, length), down), down, Drawn(pos, length), true, r);
    RunBit(g, img, Crossing(across, Low(pos, length), down), down, Abs(length), true, r);
  }

  /** A picture with all pixels off. */
  lemma Blank(g: Geometry) returns (img: Image)
    ensures Fits(g, img) && forall x, y | InRows(g, x, y) :: !img[y][x]
  {
    hide Index, Has;
    img := ImageOf(g, seq(RowBytes(g) * g.height, _ => 0));
    forall x, y | InRows(g, x, y) ensures !img[y][x] {
      ConstantBit(x % 8);
    }
  }

  /** Runs with the same visible pixels have the same effect. */
  lemma SameRun(g: Geometry, img: Image, v: Pixel, down: bool, n: nat, w: Pixel, m: nat, on: bool)
    requires Fits(g, img) && g.rotation < 4
    requires forall u: Pixel | Visible(g, u) ::
      (if down then u.x == v.x && v.y <= u.y < v.y + n else u.y == v.y && v.x <= u.x < v.x + n)
      <==> (if down then u.x == w.x && w.y <= u.y < w.y + m else u.y == w.y && w.x <= u.x < w.x + m)
    ensures PaintRun(g, img, v, down, n, on) == PaintRun(g, img, w, down, m, on)
  {
    hide PaintRun, RowBytes;
    var out := PaintRun(g, img, w, down, m, on);
    forall y, x | 0 <= y < g.height && 0 <= x < 8 * RowBytes(g)
      ensures out[y][x] == if OnRun(g, v, down, n, Pixel(x, y)) then on else img[y][x]
    {
      RunBit(g, img, w, down, m, on, Pixel(x, y));
      ViewRaw(g, View(g, Pixel(x, y)), Pixel(x, y));
    }
    RunImage(g, img, v, down, n, on, out);
  }

  /** A run without a visible pixel changes nothing. */
  lemma NothingVisible(g: Geometry, img: Image, v: Pixel, down: bool, n: nat, on: bool)
    requires Fits(g, img) && g.rotation < 4
    requires forall u: Pixel | Visible(g, u) ::
      !(if down then u.x == v.x && v.y <= u.y < v.y + n else u.y == v.y && v.x <= u.x < v.x + n)
    ensures PaintRun(g, img, v, down, n, on) == img
  {
    SameRun(g, img, v, down, n, v, 0, on);
  }

  lemma FullByte(on: bool)
    ensures forall j | 0 <= j < 8 :: Has(0xFF, j)
  {
  }

  /** The loop that builds `startByteBitMask`: bits from `from` on, as many as remain. */
  method StartMask(from: nat, width: nat) returns (mask: bv8, remaining: nat)
    requires 0 < from < 8
    ensures remaining == if width <= 8 - from then 0 else width - (8 - from)
    ensures forall j | 0 <= j < 8 :: Has(mask, j) <==> from <= j < from + (width - remaining)
  {
    hide Has, Mask;
    mask, remaining := 0x00, width;
    NoBits();
    var i := from;
    while i < 8 && remaining > 0
      invariant from <= i <= 8 && i - from == width - remaining
      invariant forall j | 0 <= j < 8 :: Has(mask, j) <==> from <= j < i
    {
      ghost var before := mask;
      mask := mask | Mask(i);
      AddBit(before, i, mask);
      remaining := remaining - 1;
      i := i + 1;
    }
  }

  /** The loop that builds `lastByteBitMask`. */
  method EndMask(n: nat) returns (mask: bv8)
    requires n < 8
    ensures forall j | 0 <= j < 8 :: Has(mask, j) <==> j < n
  {
    hide Has, Mask;
    mask := 0x00;
    NoBits();
    var i := 0;
    while i < n
      invariant 0 <= i <= n && forall j | 0 <= j < 8 :: Has(mask, j) <==> j < i
    {
      ghost var before := mask;
      mask := mask | Mask(i);
      AddBit(before, i, mask);
      i := i + 1;
    }
  }

  lemma NoBits()
    ensures forall j | 0 <= j < 8 :: !Has(0, j)
  {
  }

  lemma AddBit(mask: bv8, i: nat, next: bv8)
    requires i < 8 && next == mask | Mask(i)
    ensures forall j | 0 <= j < 8 :: Has(next, j) <==> Has(mask, j) || j == i
  {
    hide Has, Mask;
    forall j | 0 <= j < 8 ensures Has(next, j) <==> Has(mask, j) || j == i {
      OrBit(mask, Mask(i), j);
      MaskBit(i, j);
    }
  }

  /** The mask of bit `x` in its byte picks out just `x`. */
  lemma MaskBits(x: nat)
    ensures forall u | 0 <= u :: u / 8 == x / 8 && Has(Mask(x % 8), u % 8) <==> u == x
  {
    hide Has, Mask;
    forall u | 0 <= u ensures u / 8 == x / 8 && Has(Mask(x % 8), u % 8) <==> u == x {
      MaskBit(x % 8, u % 8);
    }
  }

  lemma PixelByte(g: Geometry, r: Pixel)
    requires InBitmap(g, r)
    ensures r.x / 8 < RowBytes(g) && r.x / 8 + r.y * ((g.width + 7) / 8) == Index(g, r.y, r.x / 8)
    ensures 0 <= r.x < 8 * RowBytes(g)
  {
  }

  lemma PixelPainted(g: Geometry, img: Image, out: Image, v: Pixel, r: Pixel, on: bool)
    requires Fits(g, img) && Fits(g, out) && g.rotation < 4 && Visible(g, v) && r == Raw(g, v)
    requires forall x, y | InRows(g, x, y) ::
      out[y][x] == if y == r.y && x / 8 == r.x / 8 && Has(Mask(r.x % 8), x % 8) then on else img[y][x]
    ensures out == Paint(g, img, v, on)
  {
    hide Has, Mask;
    ViewRaw(g, v, r);
    var painted := Paint(g, img, v, on);
    forall y | 0 <= y < g.height ensures out[y] == painted[y] {
      forall x | 0 <= x < 8 * RowBytes(g) ensures out[y][x] == painted[y][x] {
        assert InRows(g, x, y);
        MaskBit(r.x % 8, x % 8);
      }
    }
  }
}
