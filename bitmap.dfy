/**
 * The thumbnail compositor of the native Windows addon: `ReadBMP` decodes the pixel
 * payload of a BMP byte stream, and the pixel loop of `CreateDIB` paints a canvas of
 * 32-bit BGRA pixels with that payload centred over a solid background.
 * Bytes are `bv8` values; the file is the whole byte content of the stream.
 */
module Bitmap {
  import opened Wrappers

  /** Size of the BMP file header plus the BITMAPINFOHEADER. */
  const HeaderSize: nat := 54

  datatype BmpError =
    | TruncatedHeader       // fewer than 54 bytes: the source would read an uninitialised header
    | BadDataOffset         // dataOffset < 54: the unsigned subtraction would wrap around
    | SizeOverflow          // the 32-bit byte count does not fit the source's `int`
    | SourceBufferTooSmall  // fewer payload bytes than the centred region consumes

  /** Little-endian unsigned 32-bit field at `off`. */
  function U32At(s: seq<bv8>, off: nat): bv32
    requires off + 4 <= |s|
  {
    Pack32(s[off], s[off + 1], s[off + 2], s[off + 3])
  }

  /** Four bytes, least significant first, combined into one unsigned 32-bit value. */
  function Pack32(x0: bv8, x1: bv8, x2: bv8, x3: bv8): bv32
  {
    (x0 as bv32) | (x1 as bv32 << 8) | (x2 as bv32 << 16) | (x3 as bv32 << 24)
  }

  /** Little-endian unsigned 16-bit field at `off`. */
  function U16At(s: seq<bv8>, off: nat): bv16
    requires off + 2 <= |s|
  {
    (s[off] as bv16) | (s[off + 1] as bv16 << 8)
  }

  /** The header fields `ReadBMP` extracts, at their BMP offsets. */
  datatype BmpHeader = BmpHeader(fileSize: bv32, dataOffset: bv32, width: bv32, height: bv32, depth: bv16)

  function ParseHeader(h: seq<bv8>): BmpHeader
    requires |h| >= HeaderSize
  {
    BmpHeader(U32At(h, 2), U32At(h, 10), U32At(h, 18), U32At(h, 22), U16At(h, 28))
  }

  /** `(width * 4) & ~4` in unsigned 32-bit arithmetic: the product wraps modulo 2^32. */
  function RowBytes(width: bv32): bv32
  {
    (width * 4) & !(4 as bv32)
  }

  /** `((width * 4) & ~4) * height` as the unsigned 32-bit product the source computes. */
  function DataSize32(width: bv32, height: bv32): (n: nat)
    ensures n < 0x1_0000_0000
  {
    (RowBytes(width) as nat * height as nat) % 0x1_0000_0000
  }

  /**
   * The mask clears bit 2 of the row byte count: an even width keeps 4 bytes per
   * pixel, an odd width loses 4 bytes per row, and the product wraps modulo 2^32.
   */
  lemma RowBytesExamples()
    ensures RowBytes(2) == 8 && RowBytes(3) == 8 && RowBytes(4) == 16 && RowBytes(5) == 16
    ensures RowBytes(0x4000_0001) == 0
    ensures DataSize32(3, 2) == 16 && DataSize32(0x1_0000, 0x4000) == 0
  {
  }

  /**
   * The field bytes of a little-endian header: width 513 is stored as 01 02 00 00 at
   * offset 18.
   */
  lemma U32AtExample(h: seq<bv8>)
    requires |h| >= 22 && h[18..22] == [1, 2, 0, 0]
    ensures U32At(h, 18) == 513
  {
    assert h[18] == 1 && h[19] == 2 && h[20] == 0 && h[21] == 0;
  }

  /** The four bytes of `v`, least significant first, as a little-endian file stores them. */
  function LeBytes32(v: bv32): (b: seq<bv8>)
    ensures |b| == 4
  {
    [(v & 0xFF) as bv8, ((v >> 8) & 0xFF) as bv8, ((v >> 16) & 0xFF) as bv8, (v >> 24) as bv8]
  }

  /** A 32-bit value below 256 survives the trip through a byte. */
  lemma Narrow(w: bv32)
    requires w < 256
    ensures (w as bv8) as bv32 == w
  {
  }

  /** Packing a value's own bytes gives the value back. */
  lemma PackBytes(v: bv32)
    ensures var b := LeBytes32(v); Pack32(b[0], b[1], b[2], b[3]) == v
  {
    Narrow(v & 0xFF);
    Narrow((v >> 8) & 0xFF);
    Narrow((v >> 16) & 0xFF);
    Narrow(v >> 24);
  }

  /** The bytes of a packed value are the bytes packed. */
  lemma UnpackBytes(x0: bv8, x1: bv8, x2: bv8, x3: bv8)
    ensures LeBytes32(Pack32(x0, x1, x2, x3)) == [x0, x1, x2, x3]
  {
    var b := LeBytes32(Pack32(x0, x1, x2, x3));
    assert b[0] == x0;
    assert b[1] == x1;
    assert b[2] == x2;
    assert b[3] == x3;
  }

  /**
   * `U32At` reads the little-endian encoding: the four bytes of any `v` read back as
   * `v`, and the bytes at any offset are those of the value read there.
   */
  lemma U32AtLittleEndian(s: seq<bv8>, off: nat, v: bv32)
    requires off + 4 <= |s|
    ensures s[off..off + 4] == LeBytes32(v) ==> U32At(s, off) == v
    ensures LeBytes32(U32At(s, off)) == s[off..off + 4]
  {
    var b := s[off..off + 4];
    assert b == [s[off], s[off + 1], s[off + 2], s[off + 3]];
    UnpackBytes(s[off], s[off + 1], s[off + 2], s[off + 3]);
    if b == LeBytes32(v) {
      PackBytes(v);
      assert b[0] == s[off] && b[1] == s[off + 1] && b[2] == s[off + 2] && b[3] == s[off + 3];
    }
  }

  /** A `std::ifstream` opened in binary mode over the whole file. */
  datatype Stream = Stream(bytes: seq<bv8>, pos: nat, good: bool)

  /**
   * `stream.read(buf.data(), |buf|)`: copies what is left (at most |buf| bytes) over the
   * front of `buf`; a short read puts the stream in the failed state, after which
   * nothing more is read.
   */
  function ReadInto(st: Stream, buf: seq<bv8>): (res: (Stream, seq<bv8>))
    ensures |res.1| == |buf|
    ensures !st.good ==> res == (st, buf)
    ensures st.good && st.pos <= |st.bytes| ==>
      var n := if st.pos + |buf| <= |st.bytes| then |buf| else |st.bytes| - st.pos;
      && res.0 == Stream(st.bytes, st.pos + n, n == |buf|)
      && res.1 == st.bytes[st.pos..st.pos + n] + buf[n..]
  {
    if !st.good then (st, buf)
    else if st.pos > |st.bytes| then (Stream(st.bytes, st.pos, false), buf)
    else
      var n := if st.pos + |buf| <= |st.bytes| then |buf| else |st.bytes| - st.pos;
      (Stream(st.bytes, st.pos + n, n == |buf|), st.bytes[st.pos..st.pos + n] + buf[n..])
  }

  function Zeros(n: nat): (z: seq<bv8>)
    ensures |z| == n && forall k :: 0 <= k < n ==> z[k] == 0
  {
    seq(n, _ => 0)
  }

  /** `std::vector::resize`: keeps the front, zero-fills any growth. */
  function Resize(v: seq<bv8>, n: nat): (r: seq<bv8>)
    ensures |r| == n
    ensures forall k :: 0 <= k < n ==> r[k] == if k < |v| then v[k] else 0
  {
    if n <= |v| then v[..n] else v + Zeros(n - |v|)
  }

  /**
   * The bytes `ReadBMP` returns for a payload of `size` bytes at `dataOffset`: the file's
   * bytes from `dataOffset` on; where the file ends early, the bytes left in the buffer
   * from the skipped gap after the header, then zeros.
   */
  function Payload(file: seq<bv8>, dataOffset: nat, size: nat): (p: seq<bv8>)
    requires dataOffset >= HeaderSize
    ensures |p| == size
  {
    seq(size, k requires 0 <= k < size =>
      if dataOffset <= |file| && dataOffset + k < |file| then file[dataOffset + k]
      else if k < dataOffset - HeaderSize && HeaderSize + k < |file| then file[HeaderSize + k]
      else 0)
  }

  /** A file holding the whole payload yields exactly `size` bytes starting at `dataOffset`. */
  lemma PayloadOfCompleteFile(file: seq<bv8>, dataOffset: nat, size: nat)
    requires dataOffset >= HeaderSize && dataOffset + size <= |file|
    ensures Payload(file, dataOffset, size) == file[dataOffset..dataOffset + size]
  {
  }

  /** Reading the header from the start of a file that holds it. */
  lemma HeaderRead(file: seq<bv8>)
    requires |file| >= HeaderSize
    ensures var res := ReadInto(Stream(file, 0, true), Zeros(HeaderSize));
      res.0 == Stream(file, HeaderSize, true) && res.1 == file[..HeaderSize]
  {
    assert Zeros(HeaderSize)[HeaderSize..] == [];
    assert file[0..HeaderSize] == file[..HeaderSize];
  }

  /** Skipping a gap the file holds leaves the stream just past it, with the gap's bytes in the buffer. */
  lemma GapRead(file: seq<bv8>, dataOffset: nat)
    requires HeaderSize <= dataOffset <= |file|
    ensures var res := ReadInto(Stream(file, HeaderSize, true), Zeros(dataOffset - HeaderSize));
      res.0 == Stream(file, dataOffset, true) && res.1 == file[HeaderSize..dataOffset]
  {
    var gap := dataOffset - HeaderSize;
    assert Zeros(gap)[gap..] == [];
  }

  lemma PayloadByteAfterGap(file: seq<bv8>, dataOffset: nat, size: nat, k: nat)
    requires HeaderSize <= dataOffset <= |file| && k < size
    ensures ReadInto(Stream(file, dataOffset, true), Resize(file[HeaderSize..dataOffset], size)).1[k]
      == Payload(file, dataOffset, size)[k]
  {
    var buf := Resize(file[HeaderSize..dataOffset], size);
    if dataOffset + k >= |file| {
      assert buf[k] == if k < dataOffset - HeaderSize then file[HeaderSize + k] else 0;
    }
  }

  lemma PayloadWhenGapRead(file: seq<bv8>, dataOffset: nat, size: nat)
    requires HeaderSize <= dataOffset <= |file|
    ensures var gapRead := ReadInto(Stream(file, HeaderSize, true), Zeros(dataOffset - HeaderSize));
      ReadInto(gapRead.0, Resize(gapRead.1, size)).1 == Payload(file, dataOffset, size)
  {
    GapRead(file, dataOffset);
    var dataRead := ReadInto(Stream(file, dataOffset, true), Resize(file[HeaderSize..dataOffset], size));
    forall k | 0 <= k < size
      ensures dataRead.1[k] == Payload(file, dataOffset, size)[k]
    {
      PayloadByteAfterGap(file, dataOffset, size, k);
    }
  }

  lemma PayloadWhenGapShort(file: seq<bv8>, dataOffset: nat, size: nat)
    requires HeaderSize <= |file| < dataOffset
    ensures var gapRead := ReadInto(Stream(file, HeaderSize, true), Zeros(dataOffset - HeaderSize));
      ReadInto(gapRead.0, Resize(gapRead.1, size)).1 == Payload(file, dataOffset, size)
  {
    var gap := dataOffset - HeaderSize;
    var gapRead := ReadInto(Stream(file, HeaderSize, true), Zeros(gap));
    assert !gapRead.0.good;
    var dataRead := ReadInto(gapRead.0, Resize(gapRead.1, size));
    var p := Payload(file, dataOffset, size);
    forall k | 0 <= k < size
      ensures dataRead.1[k] == p[k]
    {
      if k < gap {
        assert gapRead.1[k] == if HeaderSize + k < |file| then file[HeaderSize + k] else 0;
      }
    }
  }

  /** Skipping the gap and reading `size` bytes yields the payload, whether or not the file holds the gap. */
  lemma PayloadRead(file: seq<bv8>, dataOffset: nat, size: nat)
    requires HeaderSize <= dataOffset && HeaderSize <= |file|
    ensures var gapRead := ReadInto(Stream(file, HeaderSize, true), Zeros(dataOffset - HeaderSize));
      ReadInto(gapRead.0, Resize(gapRead.1, size)).1 == Payload(file, dataOffset, size)
  {
    if dataOffset <= |file| {
      PayloadWhenGapRead(file, dataOffset, size);
    } else {
      PayloadWhenGapShort(file, dataOffset, size);
    }
  }

  /**
   * `ReadBMP`: reads the 54-byte header, reads and discards the `dataOffset - 54`
   * bytes up to the pixel data, then reads `((width * 4) & ~4) * height` bytes.
   */
  method ReadBmp(file: seq<bv8>) returns (r: Result<seq<bv8>, BmpError>)
    ensures |file| < HeaderSize <==> r == Err(TruncatedHeader)
    ensures |file| >= HeaderSize ==>
      var hd := ParseHeader(file[..HeaderSize]);
      && (r == Err(BadDataOffset) <==> hd.dataOffset as nat < HeaderSize)
      && (r == Err(SizeOverflow) <==>
            hd.dataOffset as nat >= HeaderSize && DataSize32(hd.width, hd.height) >= 0x8000_0000)
      && (r.Ok? ==>
            hd.dataOffset as nat >= HeaderSize &&
            r.value == Payload(file, hd.dataOffset as nat, DataSize32(hd.width, hd.height)))
    ensures r != Err(SourceBufferTooSmall)
  {
    if |file| < HeaderSize {
      return Err(TruncatedHeader);
    }
    var bmp := Stream(file, 0, true);
    var step := ReadInto(bmp, Zeros(HeaderSize));
    var header;
    bmp, header := step.0, step.1;
    HeaderRead(file);
    assert bmp == Stream(file, HeaderSize, true) && header == file[..HeaderSize];
    var hd := ParseHeader(header);
    var dataOffset := hd.dataOffset as nat;
    if dataOffset < HeaderSize {
      return Err(BadDataOffset);
    }
    var gapRead := ReadInto(bmp, Zeros(dataOffset - HeaderSize));
    var img;
    bmp, img := gapRead.0, gapRead.1;
    var size32 := DataSize32(hd.width, hd.height);
    if size32 >= 0x8000_0000 {
      return Err(SizeOverflow);
    }
    var dataSize := size32;
    img := Resize(img, dataSize);
    step := ReadInto(bmp, img);
    bmp, img := step.0, step.1;
    PayloadRead(file, dataOffset, dataSize);
    return Ok(img);
  }

  /** C++ `a / 2` on an `int`: truncates toward zero. */
  function Half(a: int): int
  {
    if a >= 0 then a / 2 else -((-a) / 2)
  }

  /** The canvas and icon dimensions `CreateDIB` is called with. */
  datatype Layout = Layout(width: nat, height: nat, iconWidth: int, iconHeight: int)
  {
    function StartX(): int { Half(width) - Half(iconWidth) }
    function StartY(): int { Half(height) - Half(iconHeight) }

    /** The test inside the pixel loop: is (x, y) in the centred icon rectangle? */
    predicate InRegion(x: int, y: int)
    {
      StartX() <= x < StartX() + iconWidth && StartY() <= y < StartY() + iconHeight
    }

    /** In-region pixels of row `y` left of column `x`. */
    function ColsBefore(y: int, x: nat): nat
    {
      if x == 0 then 0 else ColsBefore(y, x - 1) + (if InRegion(x - 1, y) then 1 else 0)
    }

    /** In-region pixels of the rows above row `y`. */
    function RowsBefore(y: nat): nat
    {
      if y == 0 then 0 else RowsBefore(y - 1) + ColsBefore(y - 1, width)
    }

    /** The value of the source cursor `i` when the loop reaches pixel (x, y). */
    function Cursor(x: nat, y: nat): nat
    {
      4 * (RowsBefore(y) + ColsBefore(y, x))
    }

    /** In-region pixels of the whole canvas: the source consumes 4 bytes for each. */
    function RegionPixels(): nat
    {
      RowsBefore(height)
    }
  }

  /** The three colour bytes of a background pixel, in the order they are stored. */
  datatype Colour = Colour(b0: bv8, b1: bv8, b2: bv8)

  /** The background colour: dark grey for the "dark" theme, white otherwise. */
  function Background(theme: string): (bg: Colour)
    ensures theme == "dark" <==> bg == Colour(43, 43, 43)
    ensures theme != "dark" <==> bg == Colour(255, 255, 255)
  {
    if theme == "dark" then Colour(43, 43, 43) else Colour(255, 255, 255)
  }

  /** Byte `i` of the payload; the canvas is only read where the payload holds it. */
  function ByteAt(img: seq<bv8>, i: nat): (b: bv8)
    ensures i < |img| ==> b == img[i]
  {
    if i < |img| then img[i] else 0
  }

  /** The four bytes written for one pixel. */
  function Pixel(l: Layout, img: seq<bv8>, bg: Colour, x: nat, y: nat): (px: seq<bv8>)
    ensures |px| == 4 && px[3] == 255
  {
    if l.InRegion(x, y) then
      var i := l.Cursor(x, y);
      [ByteAt(img, i), ByteAt(img, i + 1), ByteAt(img, i + 2), 255]
    else
      [bg.b0, bg.b1, bg.b2, 255]
  }

  lemma {:induction false} ColsBeforeMono(l: Layout, y: int, x: nat, x': nat)
    requires x <= x'
    ensures l.ColsBefore(y, x) <= l.ColsBefore(y, x')
    decreases x' - x
  {
    if x < x' {
      ColsBeforeMono(l, y, x, x' - 1);
    }
  }

  lemma {:induction false} RowsBeforeMono(l: Layout, y: nat, y': nat)
    requires y <= y'
    ensures l.RowsBefore(y) <= l.RowsBefore(y')
    decreases y' - y
  {
    if y < y' {
      RowsBeforeMono(l, y, y' - 1);
    }
  }

  /** An in-region pixel reads four bytes that lie inside the consumed prefix. */
  lemma {:induction false} CursorInBounds(l: Layout, x: nat, y: nat)
    requires x < l.width && y < l.height
    ensures l.InRegion(x, y) ==> l.Cursor(x, y) + 4 <= 4 * l.RegionPixels()
  {
    ColsBeforeMono(l, y, x + 1, l.width);
    RowsBeforeMono(l, y + 1, l.height);
  }

  /**
   * The bytes of columns `0..x` of row `y`, in loop order, of a canvas whose pixel
   * (x, y) has the bytes `px(x, y)`.
   */
  function RowBytesUpTo(px: (nat, nat) -> seq<bv8>, y: nat, x: nat): seq<bv8>
  {
    if x == 0 then [] else RowBytesUpTo(px, y, x - 1) + px(x - 1, y)
  }

  /** The bytes of rows `0..y`, in loop order, of such a canvas `width` pixels wide. */
  function RowsUpTo(px: (nat, nat) -> seq<bv8>, width: nat, y: nat): seq<bv8>
  {
    if y == 0 then [] else RowsUpTo(px, width, y - 1) + RowBytesUpTo(px, y - 1, width)
  }

  ghost predicate FourBytes(px: (nat, nat) -> seq<bv8>)
  {
    forall x: nat, y: nat :: |px(x, y)| == 4
  }

  /** The pixels `CreateDIB` writes. */
  function PixelsOf(l: Layout, img: seq<bv8>, bg: Colour): (px: (nat, nat) -> seq<bv8>)
    ensures FourBytes(px)
  {
    (x: nat, y: nat) => Pixel(l, img, bg, x, y)
  }

  /** The whole canvas as the pixel loop of `CreateDIB` leaves it. */
  function Canvas(l: Layout, img: seq<bv8>, theme: string): seq<bv8>
  {
    RowsUpTo(PixelsOf(l, img, Background(theme)), l.width, l.height)
  }

  lemma {:induction false} RowLength(px: (nat, nat) -> seq<bv8>, y: nat, x: nat)
    requires FourBytes(px)
    ensures |RowBytesUpTo(px, y, x)| == 4 * x
  {
    if x > 0 {
      RowLength(px, y, x - 1);
    }
  }

  lemma {:induction false} RowsUpToLength(px: (nat, nat) -> seq<bv8>, width: nat, y: nat)
    requires FourBytes(px)
    ensures |RowsUpTo(px, width, y)| == 4 * width * y
  {
    if y > 0 {
      RowsUpToLength(px, width, y - 1);
      RowLength(px, y - 1, width);
      assert 4 * width * y == 4 * width * (y - 1) + 4 * width;
    }
  }

  /** The canvas holds exactly 4 bytes for each of the width * height pixels. */
  lemma CanvasLength(l: Layout, img: seq<bv8>, theme: string)
    ensures |Canvas(l, img, theme)| == 4 * l.width * l.height
  {
    RowsUpToLength(PixelsOf(l, img, Background(theme)), l.width, l.height);
  }

  /** Byte offset of pixel (x, y) in the row-major canvas. */
  function Offset(l: Layout, x: nat, y: nat): nat
  {
    4 * (y * l.width + x)
  }

  /** A prefix of `a + b` no longer than `a` is a prefix of `a`. */
  lemma PrefixOfConcat<T>(a: seq<T>, b: seq<T>, k: nat)
    requires k <= |a|
    ensures (a + b)[..k] == a[..k]
  {
  }

  /** When `a + b` starts `all`, the elements `i .. i+len` of `b` sit at `|a| + i` in `all`. */
  lemma SliceThroughPrefix<T>(all: seq<T>, a: seq<T>, b: seq<T>, i: nat, len: nat)
    requires |a + b| <= |all| && all[..|a + b|] == a + b && i + len <= |b|
    ensures |a| + i + len <= |all| && all[|a| + i..|a| + i + len] == b[i..i + len]
  {
    var k := |a + b|;
    forall j | |a| + i <= j < |a| + i + len
      ensures all[j] == (a + b)[j]
    {
      assert all[j] == all[..k][j];
    }
    assert all[|a| + i..|a| + i + len] == (a + b)[|a| + i..|a| + i + len];
  }

  /** The bytes of columns `0..x` of a row are a prefix of those of columns `0..n`. */
  lemma {:induction false} RowPrefix(px: (nat, nat) -> seq<bv8>, y: nat, x: nat, n: nat)
    requires x <= n && FourBytes(px)
    ensures 4 * x <= |RowBytesUpTo(px, y, n)| && RowBytesUpTo(px, y, n)[..4 * x] == RowBytesUpTo(px, y, x)
    decreases n
  {
    RowLength(px, y, x);
    if x < n {
      RowPrefix(px, y, x, n - 1);
      RowLength(px, y, n - 1);
      PrefixOfConcat(RowBytesUpTo(px, y, n - 1), px(n - 1, y), 4 * x);
    }
  }

  /** Pixel (x, y) occupies bytes `4x .. 4x+4` of row `y`. */
  lemma RowPixelAt(px: (nat, nat) -> seq<bv8>, y: nat, x: nat, n: nat)
    requires x < n && FourBytes(px)
    ensures |RowBytesUpTo(px, y, n)| == 4 * n
    ensures RowBytesUpTo(px, y, n)[4 * x..4 * x + 4] == px(x, y)
  {
    var front := RowBytesUpTo(px, y, x);
    RowLength(px, y, x);
    RowLength(px, y, n);
    RowPrefix(px, y, x + 1, n);
    assert RowBytesUpTo(px, y, x + 1) == front + px(x, y);
    SliceThroughPrefix(RowBytesUpTo(px, y, n), front, px(x, y), 0, 4);
    assert px(x, y)[0..4] == px(x, y);
  }

  /** The bytes of rows `0..y` are a prefix of those of rows `0..n`. */
  lemma {:induction false} RowsPrefix(px: (nat, nat) -> seq<bv8>, width: nat, y: nat, n: nat)
    requires y <= n
    ensures |RowsUpTo(px, width, y)| <= |RowsUpTo(px, width, n)|
    ensures RowsUpTo(px, width, n)[..|RowsUpTo(px, width, y)|] == RowsUpTo(px, width, y)
    decreases n
  {
    if y < n {
      RowsPrefix(px, width, y, n - 1);
      PrefixOfConcat(RowsUpTo(px, width, n - 1), RowBytesUpTo(px, n - 1, width), |RowsUpTo(px, width, y)|);
    }
  }

  /** Pixel (x, y) follows the bytes of rows `0..y` and of columns `0..x` of row `y`. */
  lemma RowsPixelAt(px: (nat, nat) -> seq<bv8>, width: nat, x: nat, y: nat, n: nat)
    requires x < width && y < n && FourBytes(px)
    ensures var off := |RowsUpTo(px, width, y)| + 4 * x;
      && off + 4 <= |RowsUpTo(px, width, n)|
      && RowsUpTo(px, width, n)[off..off + 4] == px(x, y)
  {
    var before := RowsUpTo(px, width, y);
    var row := RowBytesUpTo(px, y, width);
    RowPixelAt(px, y, x, width);
    RowsPrefix(px, width, y + 1, n);
    assert RowsUpTo(px, width, y + 1) == before + row;
    SliceThroughPrefix(RowsUpTo(px, width, n), before, row, 4 * x, 4);
  }

  /**
   * Row-major layout: pixel (x, y) occupies bytes 4(y*width + x) .. +4 of the canvas;
   * inside the centred region they are the next three payload bytes and 255, outside
   * they are the background colour's three bytes, in order, and 255.
   */
  lemma CanvasPixel(l: Layout, img: seq<bv8>, theme: string, x: nat, y: nat)
    requires |img| >= 4 * l.RegionPixels()
    requires x < l.width && y < l.height
    ensures Offset(l, x, y) + 4 <= |Canvas(l, img, theme)|
    ensures var px := Canvas(l, img, theme)[Offset(l, x, y)..Offset(l, x, y) + 4];
      var bg := Background(theme);
      && px[3] == 255
      && (l.InRegion(x, y) ==>
            var i := l.Cursor(x, y);
            i + 4 <= |img| && px[..3] == img[i..i + 3])
      && (!l.InRegion(x, y) ==> px[..3] == [bg.b0, bg.b1, bg.b2])
  {
    CanvasAt(l, img, theme, x, y);
    CursorInBounds(l, x, y);
  }

  /** Pixel (x, y) of the canvas lies at its row-major offset. */
  lemma CanvasAt(l: Layout, img: seq<bv8>, theme: string, x: nat, y: nat)
    requires x < l.width && y < l.height
    ensures Offset(l, x, y) + 4 <= |Canvas(l, img, theme)|
    ensures Canvas(l, img, theme)[Offset(l, x, y)..Offset(l, x, y) + 4] == Pixel(l, img, Background(theme), x, y)
  {
    RowMajorAt(PixelsOf(l, img, Background(theme)), l.width, l.height, x, y);
  }

  /** In a canvas `width` pixels wide and `height` high, pixel (x, y) starts at byte 4(y*width + x). */
  lemma RowMajorAt(px: (nat, nat) -> seq<bv8>, width: nat, height: nat, x: nat, y: nat)
    requires x < width && y < height && FourBytes(px)
    ensures 4 * (y * width + x) + 4 <= |RowsUpTo(px, width, height)|
    ensures RowsUpTo(px, width, height)[4 * (y * width + x)..4 * (y * width + x) + 4] == px(x, y)
  {
    RowsUpToLength(px, width, y);
    assert 4 * (y * width + x) == 4 * width * y + 4 * x;
    RowsPixelAt(px, width, x, y, height);
  }

  /** Columns of a region row inside the canvas, left of `x`. */
  function ClipCount(lo: int, hi: int, x: nat): nat
  {
    var a := if lo < 0 then 0 else lo;
    var b := if hi < x then hi else x;
    if b <= a then 0 else b - a
  }

  lemma {:induction false} ColsBeforeValue(l: Layout, y: int, x: nat)
    ensures l.ColsBefore(y, x) ==
      if l.StartY() <= y < l.StartY() + l.iconHeight
      then ClipCount(l.StartX(), l.StartX() + l.iconWidth, x) else 0
  {
    if x > 0 {
      ColsBeforeValue(l, y, x - 1);
    }
  }

  lemma MulSucc(a: nat, b: nat)
    ensures a * (b + 1) == a * b + a
  {
  }

  lemma {:induction false} RowsBeforeValue(l: Layout, y: nat)
    ensures l.RowsBefore(y) ==
      ClipCount(l.StartX(), l.StartX() + l.iconWidth, l.width)
        * ClipCount(l.StartY(), l.StartY() + l.iconHeight, y)
  {
    if y > 0 {
      var w := ClipCount(l.StartX(), l.StartX() + l.iconWidth, l.width);
      var h := ClipCount(l.StartY(), l.StartY() + l.iconHeight, y - 1);
      var h' := ClipCount(l.StartY(), l.StartY() + l.iconHeight, y);
      RowsBeforeValue(l, y - 1);
      ColsBeforeValue(l, y - 1, l.width);
      if l.StartY() <= y - 1 < l.StartY() + l.iconHeight {
        assert h' == h + 1;
        MulSucc(w, h);
      } else {
        assert h' == h;
      }
    }
  }

  /**
   * The payload must hold 4 bytes for each pixel of the icon rectangle clipped to the
   * canvas; when the icon fits inside the canvas that is iconWidth * iconHeight pixels.
   */
  lemma RegionPixelsValue(l: Layout)
    ensures l.RegionPixels() ==
      ClipCount(l.StartX(), l.StartX() + l.iconWidth, l.width)
        * ClipCount(l.StartY(), l.StartY() + l.iconHeight, l.height)
    ensures 0 <= l.iconWidth <= l.width && 0 <= l.iconHeight <= l.height ==>
      l.RegionPixels() == l.iconWidth * l.iconHeight
  {
    RowsBeforeValue(l, l.height);
  }

  /** Writes one BGRA pixel at `p`: three colour bytes and an opaque alpha. */
  method WritePixel(pbDS: array<bv8>, p: nat, b0: bv8, b1: bv8, b2: bv8)
    requires p + 4 <= pbDS.Length
    modifies pbDS
    ensures pbDS[..p + 4] == old(pbDS[..p]) + [b0, b1, b2, 255]
  {
    pbDS[p] := b0;
    pbDS[p + 1] := b1;
    pbDS[p + 2] := b2;
    pbDS[p + 3] := 255;
  }

  /**
   * A 2x2 icon on a 4x4 canvas sits at columns and rows 1..2, consumes 16 payload
   * bytes, and its bottom-right pixel reads payload bytes 12..14.
   */
  lemma CenteredIconExample()
    ensures var l := Layout(4, 4, 2, 2);
      && l.StartX() == 1 && l.StartY() == 1
      && l.InRegion(1, 1) && l.InRegion(2, 2) && !l.InRegion(0, 1) && !l.InRegion(3, 2)
      && l.RegionPixels() == 4
      && l.Cursor(2, 2) == 12
  {
    var l := Layout(4, 4, 2, 2);
    RegionPixelsValue(l);
    ColsBeforeValue(l, 2, 2);
    RowsBeforeValue(l, 2);
  }

  /**
   * The body of the inner loop of `CreateDIB`: inside the region the payload's next
   * three bytes, advancing the cursor; outside it the background colour.
   */
  method PaintPixel(pbDS: array<bv8>, l: Layout, img: seq<bv8>, bg: Colour, x: nat, y: nat, p: nat, i: nat)
    returns (i': nat)
    requires x < l.width && y < l.height && |img| >= 4 * l.RegionPixels()
    requires p + 4 <= pbDS.Length && i == l.Cursor(x, y)
    modifies pbDS
    ensures pbDS[..p + 4] == old(pbDS[..p]) + Pixel(l, img, bg, x, y)
    ensures i' == l.Cursor(x + 1, y)
  {
    CursorInBounds(l, x, y);
    if l.InRegion(x, y) {
      WritePixel(pbDS, p, img[i], img[i + 1], img[i + 2]);
      i' := i + 4;
    } else {
      WritePixel(pbDS, p, bg.b0, bg.b1, bg.b2);
      i' := i;
    }
  }

  /**
   * The inner loop of `CreateDIB` for row `y`: columns left to right, one pixel each,
   * continuing from section offset `p` and payload cursor `i`.
   */
  method PaintRow(pbDS: array<bv8>, l: Layout, img: seq<bv8>, bg: Colour, y: nat, p: nat, i: nat)
    returns (p': nat, i': nat)
    requires y < l.height && |img| >= 4 * l.RegionPixels()
    requires p + 4 * l.width <= pbDS.Length
    requires i == l.Cursor(0, y)
    modifies pbDS
    ensures p' == p + 4 * l.width && i' == l.Cursor(0, y + 1)
    ensures pbDS[..p'] == old(pbDS[..p]) + RowBytesUpTo(PixelsOf(l, img, bg), y, l.width)
  {
    ghost var pixels := PixelsOf(l, img, bg);
    ghost var done := pbDS[..p];
    p', i' := p, i;
    var x := 0;
    while x < l.width
      invariant 0 <= x <= l.width
      invariant p' == p + 4 * x
      invariant i' == l.Cursor(x, y)
      invariant pbDS[..p'] == done + RowBytesUpTo(pixels, y, x)
    {
      ghost var before := pbDS[..p'];
      i' := PaintPixel(pbDS, l, img, bg, x, y, p', i');
      assert pbDS[..p' + 4] == done + RowBytesUpTo(pixels, y, x + 1) by {
        assert pbDS[..p' + 4] == before + Pixel(l, img, bg, x, y);
        assert RowBytesUpTo(pixels, y, x + 1) == RowBytesUpTo(pixels, y, x) + Pixel(l, img, bg, x, y);
      }
      p' := p' + 4;
      x := x + 1;
    }
  }

  /**
   * The pixel loop of `CreateDIB`: walks rows top to bottom, writing four bytes per
   * pixel through the cursor `p` into the section `pbDS`.
   */
  method PaintCanvas(pbDS: array<bv8>, l: Layout, img: seq<bv8>, theme: string)
    requires pbDS.Length == 4 * l.width * l.height
    requires |img| >= 4 * l.RegionPixels()
    modifies pbDS
    ensures pbDS[..] == Canvas(l, img, theme)
  {
    var bg := Background(theme);
    ghost var pixels := PixelsOf(l, img, bg);
    RowsUpToLength(pixels, l.width, l.height);
    var i := 0;
    var p := 0;
    var y := 0;
    while y < l.height
      invariant 0 <= y <= l.height
      invariant p == |RowsUpTo(pixels, l.width, y)| <= pbDS.Length
      invariant i == l.Cursor(0, y)
      invariant pbDS[..p] == RowsUpTo(pixels, l.width, y)
    {
      RowsPrefix(pixels, l.width, y + 1, l.height);
      RowLength(pixels, y, l.width);
      p, i := PaintRow(pbDS, l, img, bg, y, p, i);
      y := y + 1;
    }
    assert pbDS[..] == pbDS[..p];
  }

  /**
   * `CreateDIB` without the Win32 allocation: decode the file, pick the background,
   * allocate a zeroed 32-bit section of width * height pixels and paint it. Where the
   * source would read past the payload, this model reports `SourceBufferTooSmall`.
   */
  method CreateDib(nWidth: nat, nHeight: nat, iconWidth: int, iconHeight: int, file: seq<bv8>, theme: string)
    returns (r: Result<array<bv8>, BmpError>)
    ensures r.Ok? ==> fresh(r.value)
    ensures |file| < HeaderSize ==> r == Err(TruncatedHeader)
    ensures |file| >= HeaderSize ==>
      var hd := ParseHeader(file[..HeaderSize]);
      var l := Layout(nWidth, nHeight, iconWidth, iconHeight);
      var decodes := hd.dataOffset as nat >= HeaderSize && DataSize32(hd.width, hd.height) < 0x8000_0000;
      && (!decodes ==> r.Err? && r.error != SourceBufferTooSmall)
      && (decodes ==>
            var img := Payload(file, hd.dataOffset as nat, DataSize32(hd.width, hd.height));
            && (r.Ok? <==> |img| >= 4 * l.RegionPixels())
            && (r.Err? ==> r.error == SourceBufferTooSmall)
            && (r.Ok? ==> r.value.Length == 4 * nWidth * nHeight && r.value[..] == Canvas(l, img, theme)))
  {
    var decoded := ReadBmp(file);
    if decoded.Err? {
      assert decoded == Err(decoded.error);
      assert decoded.error != SourceBufferTooSmall;
      return Err(decoded.error);
    }
    var img := decoded.value;
    var l := Layout(nWidth, nHeight, iconWidth, iconHeight);
    if |img| < 4 * l.RegionPixels() {
      return Err(SourceBufferTooSmall);
    }
    var pbDS := new bv8[4 * nWidth * nHeight];
    PaintCanvas(pbDS, l, img, theme);
    return Ok(pbDS);
  }
}
