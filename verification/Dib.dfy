/** The clipboard's device-independent bitmaps: a decoded picture to a CF_DIB payload and back.
    The PNG and TIFF codecs on the other side are not part of this model. */
module Dib {
  import opened Common

  const U16_LIMIT := 0x1_0000
  const I32_LIMIT := 0x8000_0000
  const USIZE_LIMIT := 0x1_0000_0000_0000_0000

  // ---------------------------------------------------------------------------
  // Little-endian words
  // ---------------------------------------------------------------------------

  function Le16(n: int): (r: Bytes)
    ensures |r| == 2 && FromLe16(r) == n % U16_LIMIT
  {
    var m := n % U16_LIMIT;
    [m % 0x100, m / 0x100]
  }

  /** `to_le_bytes` of a 32-bit word, signed or not: the value modulo 2^32. */
  function Le32(n: int): (r: Bytes)
    ensures |r| == 4 && FromLe32(r) == n % U32_LIMIT
  {
    var m := n % U32_LIMIT;
    var hi, lo := m / 0x1_0000, m % 0x1_0000;
    [lo % 0x100, lo / 0x100, hi % 0x100, hi / 0x100]
  }

  function FromLe16(b: Bytes): nat
    requires |b| == 2
  {
    (b[0] as int) + 0x100 * (b[1] as int)
  }

  function FromLe32(b: Bytes): nat
    requires |b| == 4
  {
    (b[0] as int) + 0x100 * (b[1] as int) + 0x1_0000 * (b[2] as int) + 0x100_0000 * (b[3] as int)
  }

  function AsI32(u: nat): int
    requires u < U32_LIMIT
  {
    if u < I32_LIMIT then u else u - U32_LIMIT
  }

  lemma FromLe32Range(b: Bytes)
    requires |b| == 4
    ensures FromLe32(b) < U32_LIMIT
  {
  }

  // ---------------------------------------------------------------------------
  // Products
  // ---------------------------------------------------------------------------

  /** `k * c`, as repeated addition so that sums of rows stay linear. */
  function Times(k: nat, c: nat): nat { if k == 0 then 0 else Times(k - 1, c) + c }

  lemma {:induction false} TimesIsProduct(k: nat, c: nat)
    ensures Times(k, c) == k * c
    decreases k
  {
    if k > 0 {
      TimesIsProduct(k - 1, c);
      assert k * c == (k - 1) * c + c;
    }
  }

  lemma {:induction false} TimesMonotone(a: nat, b: nat, c: nat, d: nat)
    requires a <= b && c <= d
    ensures Times(a, c) <= Times(b, d)
    decreases b
  {
    if a > 0 {
      TimesMonotone(a - 1, b - 1, c, d);
    }
  }

  lemma {:induction false} TimesScaled(k: nat, c: nat, f: nat)
    requires f == 3 || f == 4
    ensures Times(k, f * c) == f * Times(k, c)
    decreases k
  {
    if k > 0 {
      TimesScaled(k - 1, c, f);
    }
  }

  // ---------------------------------------------------------------------------
  // The payload
  // ---------------------------------------------------------------------------

  /** A decoded picture: rows from the top, four bytes R, G, B, A a pixel. */
  datatype Image = Image(width: nat, height: nat, rgba: Bytes)

  /** Where row k starts. */
  function RowBase(width: nat, k: nat): nat { 4 * Times(k, width) }

  ghost predicate ValidImage(img: Image) {
    img.width < U32_LIMIT && img.height < U32_LIMIT && |img.rgba| == RowBase(img.width, img.height)
  }

  /** The sizes in a BITMAPINFOHEADER; a negative height says that rows run from the top. */
  function Sizes(width: nat, height: nat): (r: Bytes)
    ensures |r| == 12
  {
    Le32(40) + Le32(width) + Le32(0 - height)
  }

  /** One plane, 32 bits a pixel, BI_RGB. */
  function Format(): (r: Bytes)
    ensures |r| == 8
  {
    Le16(1) + Le16(32) + Le32(0)
  }

  function Header(width: nat, height: nat): (r: Bytes)
    ensures |r| == 40
  {
    Sizes(width, height) + Format() + (Le32(RowBase(width, height)) + Le32(0) + Le32(0) + Le32(0) + Le32(0))
  }

  /** The first `n` pixels as B, G, R, A. */
  ghost function Bgra(rgba: Bytes, n: nat): (r: Bytes)
    requires 4 * n <= |rgba|
    ensures |r| == 4 * n
  {
    if n == 0 then []
    else Bgra(rgba, n - 1) + [rgba[4 * n - 2], rgba[4 * n - 3], rgba[4 * n - 4], rgba[4 * n - 1]]
  }

  ghost function Encoded(img: Image): Bytes
    requires ValidImage(img)
  {
    Header(img.width, img.height) + Bgra(img.rgba, Times(img.height, img.width))
  }

  method HeaderBytes(width: nat, height: nat) returns (out: Bytes)
    ensures out == Header(width, height)
  {
    out := Le32(40);
    out := out + Le32(width);
    out := out + Le32(0 - height);
    assert out == Sizes(width, height);
    out := out + Le16(1);
    out := out + Le16(32);
    out := out + Le32(0);
    assert out == Sizes(width, height) + Format();
    out := out + Le32(RowBase(width, height));
    out := out + Le32(0);
    out := out + Le32(0);
    out := out + Le32(0);
    out := out + Le32(0);
    assert out == Header(width, height);
  }

  method PngOrTiffToDib(img: Image) returns (out: Bytes)
    requires ValidImage(img)
    ensures out == Encoded(img)
  {
    out := HeaderBytes(img.width, img.height);
    ghost var header := out;
    for p := 0 to Times(img.height, img.width)
      invariant out == header + Bgra(img.rgba, p)
    {
      var px := img.rgba[4 * p..4 * p + 4];
      ghost var done := Bgra(img.rgba, p);
      Assoc(header, done, [px[2], px[1], px[0], px[3]]);
      out := out + [px[2], px[1], px[0], px[3]];
      assert Bgra(img.rgba, p + 1) == done + [px[2], px[1], px[0], px[3]];
    }
  }

  // ---------------------------------------------------------------------------
  // Reading a payload
  // ---------------------------------------------------------------------------

  datatype Error =
    | TooShort | BogusSize | BadWidth | ZeroHeight | BadCompression | BadBitCount | BadBitfields | Overflow | Truncated

  datatype Result<T> = Ok(value: T) | Err(error: Error)

  /** `bpp` is in bytes; `start` is where the pixels begin. */
  datatype Layout = Layout(width: nat, height: nat, topDown: bool, bpp: nat, start: nat)

  function Word(dib: Bytes, at: nat): (u: nat)
    requires at + 4 <= |dib|
    ensures u < U32_LIMIT
  {
    FromLe32Range(dib[at..at + 4]);
    FromLe32(dib[at..at + 4])
  }

  function HalfWord(dib: Bytes, at: nat): nat
    requires at + 2 <= |dib|
  {
    FromLe16(dib[at..at + 2])
  }

  /** Bytes of `n` pixels. */
  function Span(bpp: nat, n: nat): nat { if bpp == 4 then 4 * n else 3 * n }

  /** Rows are padded to a multiple of four bytes. */
  function Stride(l: Layout): nat { (Span(l.bpp, l.width) + 3) / 4 * 4 }

  function Body(l: Layout): nat { Times(l.height, Stride(l)) }

  /** Colour masks that follow a 40-byte header. */
  function MaskBytes(compression: nat, biSize: nat): nat {
    if (compression == 3 || compression == 6) && biSize == 40 then (if compression == 6 then 16 else 12) else 0
  }

  /** The words of the header that the decoder looks at. */
  datatype Fields = Fields(size: nat, width: int, height: int, bitCount: nat, compression: nat)

  function FieldsOf(dib: Bytes): Fields
    requires |dib| >= 40
  {
    Fields(Word(dib, 0), AsI32(Word(dib, 4)), AsI32(Word(dib, 8)), HalfWord(dib, 14), Word(dib, 16))
  }

  function LayoutOf(f: Fields): Layout
    requires f.width > 0
  {
    Layout(f.width, if f.height < 0 then -f.height else f.height, f.height < 0, f.bitCount / 8,
           f.size + MaskBytes(f.compression, f.size))
  }

  /** The checks on the header of a payload of `len` bytes, in order. */
  function CheckFields(f: Fields, len: nat): Result<Layout> {
    if f.size < 40 || f.size > len then Err(BogusSize)
    else if f.width <= 0 then Err(BadWidth)
    else if f.height == 0 then Err(ZeroHeight)
    else if f.compression != 0 && f.compression != 3 && f.compression != 6 then Err(BadCompression)
    else if f.bitCount != 24 && f.bitCount != 32 then Err(BadBitCount)
    else if f.compression != 0 && f.bitCount != 32 then Err(BadBitfields)
    else
      var l := LayoutOf(f);
      if l.start + Body(l) >= USIZE_LIMIT then Err(Overflow)
      else if len < l.start + Body(l) then Err(Truncated)
      else if RowBase(l.width, l.height) >= USIZE_LIMIT then Err(Overflow)
      else Ok(l)
  }

  function ParseHeader(dib: Bytes): Result<Layout> {
    if |dib| < 40 then Err(TooShort) else CheckFields(FieldsOf(dib), |dib|)
  }

  /** All rows are inside the payload. */
  ghost predicate Fits(dib: Bytes, l: Layout) {
    (l.bpp == 3 || l.bpp == 4) && l.start + Body(l) <= |dib|
  }

  lemma ParsedFits(dib: Bytes)
    requires ParseHeader(dib).Ok?
    ensures Fits(dib, ParseHeader(dib).value)
    ensures var l := ParseHeader(dib).value; 0 < l.width < I32_LIMIT && 0 < l.height <= I32_LIMIT && l.start >= 40
  {
  }

  /** Where output row k is read from. */
  function RowAt(l: Layout, k: nat): nat
    requires k < l.height
  {
    l.start + Times(if l.topDown then k else l.height - 1 - k, Stride(l))
  }

  /** Every row read is in bounds. */
  lemma RowFits(dib: Bytes, l: Layout, k: nat)
    requires Fits(dib, l) && k < l.height
    ensures RowAt(l, k) + Span(l.bpp, l.width) <= RowAt(l, k) + Stride(l) <= |dib|
  {
    var row := if l.topDown then k else l.height - 1 - k;
    TimesMonotone(row + 1, l.height, Stride(l), Stride(l));
  }

  function Pixel(dib: Bytes, at: nat, bpp: nat): (r: Bytes)
    requires (bpp == 3 || bpp == 4) && at + bpp <= |dib|
    ensures |r| == 4
  {
    [dib[at + 2], dib[at + 1], dib[at], if bpp == 4 then dib[at + 3] else 0xFF]
  }

  /** The first `n` pixels of the row at `at`. */
  ghost function RowPixels(dib: Bytes, at: nat, bpp: nat, n: nat): (r: Bytes)
    requires (bpp == 3 || bpp == 4) && at + Span(bpp, n) <= |dib|
    ensures |r| == 4 * n
  {
    if n == 0 then [] else RowPixels(dib, at, bpp, n - 1) + Pixel(dib, at + Span(bpp, n - 1), bpp)
  }

  ghost function RowOf(dib: Bytes, l: Layout, k: nat): (r: Bytes)
    requires Fits(dib, l) && k < l.height
    ensures |r| == 4 * l.width
  {
    RowFits(dib, l, k);
    RowPixels(dib, RowAt(l, k), l.bpp, l.width)
  }

  /** The first `n` output rows. */
  ghost function Rows(dib: Bytes, l: Layout, n: nat): (r: seq<Bytes>)
    requires Fits(dib, l) && n <= l.height
    ensures |r| == n && AllWide(r, l.width)
  {
    seq(n, k requires 0 <= k < n => RowOf(dib, l, k))
  }

  ghost predicate AllWide(rows: seq<Bytes>, width: nat) {
    forall k :: 0 <= k < |rows| ==> |rows[k]| == 4 * width
  }

  ghost function Flatten(rows: seq<Bytes>): Bytes {
    if rows == [] then [] else Flatten(rows[..|rows| - 1]) + rows[|rows| - 1]
  }

  lemma FlattenSnoc(rows: seq<Bytes>, row: Bytes)
    ensures Flatten(rows + [row]) == Flatten(rows) + row
  {
    assert (rows + [row])[..|rows|] == rows;
  }

  lemma {:induction false} FlattenLength(rows: seq<Bytes>, width: nat)
    requires AllWide(rows, width)
    ensures |Flatten(rows)| == RowBase(width, |rows|)
    decreases |rows|
  {
    if rows != [] {
      FlattenLength(rows[..|rows| - 1], width);
    }
  }

  /** Row k of a picture is where rows of one width put it. */
  lemma {:induction false} FlattenRow(rows: seq<Bytes>, width: nat, k: nat)
    requires AllWide(rows, width) && k < |rows|
    ensures RowBase(width, k) + 4 * width <= |Flatten(rows)|
    ensures Flatten(rows)[RowBase(width, k)..RowBase(width, k) + 4 * width] == rows[k]
    decreases |rows|
  {
    var before := rows[..|rows| - 1];
    FlattenLength(before, width);
    if k < |before| {
      FlattenRow(before, width, k);
      PrefixSlice(Flatten(before), rows[|rows| - 1], RowBase(width, k), RowBase(width, k) + 4 * width);
    } else {
      SuffixSlice(Flatten(before), rows[|rows| - 1]);
    }
  }

  lemma PrefixSlice(a: Bytes, b: Bytes, lo: nat, hi: nat)
    requires lo <= hi <= |a|
    ensures (a + b)[lo..hi] == a[lo..hi]
  {
  }

  lemma SuffixSlice(a: Bytes, b: Bytes)
    ensures (a + b)[|a|..|a| + |b|] == b
  {
  }

  ghost function Decoded(dib: Bytes): Result<Image> {
    match ParseHeader(dib)
    case Err(e) => Err(e)
    case Ok(l) =>
      ParsedFits(dib);
      Ok(Image(l.width, l.height, Flatten(Rows(dib, l, l.height))))
  }

  lemma ChunkIsPixel(dib: Bytes, at: nat, len: nat, from: nat, bpp: nat, chunk: Bytes)
    requires (bpp == 3 || bpp == 4) && from + bpp <= len && at + len <= |dib| && chunk == dib[at..at + len][from..from + bpp]
    ensures [chunk[2], chunk[1], chunk[0], if bpp == 4 then chunk[3] else 0xFF] == Pixel(dib, at + from, bpp)
  {
  }

  method AppendRow(rgba: Bytes, dib: Bytes, at: nat, bpp: nat, width: nat) returns (out: Bytes)
    requires (bpp == 3 || bpp == 4) && at + Span(bpp, width) <= |dib|
    ensures out == rgba + RowPixels(dib, at, bpp, width)
  {
    var rowBytes := dib[at..at + Span(bpp, width)];
    out := rgba;
    for col := 0 to width
      invariant out == rgba + RowPixels(dib, at, bpp, col)
    {
      var chunk := rowBytes[Span(bpp, col)..Span(bpp, col + 1)];
      var px := [chunk[2], chunk[1], chunk[0], if bpp == 4 then chunk[3] else 0xFF];
      ChunkIsPixel(dib, at, Span(bpp, width), Span(bpp, col), bpp, chunk);
      Assoc(rgba, RowPixels(dib, at, bpp, col), px);
      out := out + px;
    }
  }

  method DibToRgba(dib: Bytes) returns (r: Result<Image>)
    ensures r == Decoded(dib)
    ensures r.Ok? ==> |r.value.rgba| == RowBase(r.value.width, r.value.height)
  {
    var parsed := ParseHeader(dib);
    if parsed.Err? {
      return Err(parsed.error);
    }
    var l := parsed.value;
    ParsedFits(dib);
    var rgba := [];
    for row := 0 to l.height
      invariant rgba == Flatten(Rows(dib, l, row))
    {
      RowFits(dib, l, row);
      FlattenSnoc(Rows(dib, l, row), RowOf(dib, l, row));
      assert Rows(dib, l, row + 1) == Rows(dib, l, row) + [RowOf(dib, l, row)];
      rgba := AppendRow(rgba, dib, RowAt(l, row), l.bpp, l.width);
    }
    FlattenLength(Rows(dib, l, l.height), l.width);
    r := Ok(Image(l.width, l.height, rgba));
  }

  // ---------------------------------------------------------------------------
  // What is accepted
  // ---------------------------------------------------------------------------

  /** Since rows hold at least three bytes a pixel, a picture that is there fits an RGBA buffer. */
  lemma BufferFits(l: Layout)
    requires l.bpp == 3 || l.bpp == 4
    ensures 3 * RowBase(l.width, l.height) <= 4 * Body(l)
  {
    TimesScaled(l.height, l.width, 3);
    TimesMonotone(l.height, l.height, 3 * l.width, Stride(l));
  }

  /** A supported format and all of its pixels. */
  predicate Complete(f: Fields, len: nat) {
    && 40 <= f.size <= len && f.width > 0 && f.height != 0
    && (f.bitCount, f.compression) in {(24, 0), (32, 0), (32, 3), (32, 6)}
    && LayoutOf(f).start + Body(LayoutOf(f)) <= len
  }

  /** For any payload a program can hold (less than 2^63 bytes), accepted are exactly the complete
      payloads of a supported format: no overflow check turns one of them away. */
  lemma AcceptedExactly(dib: Bytes)
    requires |dib| < USIZE_LIMIT / 2
    ensures Decoded(dib).Ok? <==> |dib| >= 40 && Complete(FieldsOf(dib), |dib|)
  {
    if |dib| >= 40 {
      CheckedExactly(FieldsOf(dib), |dib|);
    }
  }

  /** ... and the check on the size of the output never fires. */
  lemma CheckedExactly(f: Fields, len: nat)
    requires len < USIZE_LIMIT / 2
    ensures CheckFields(f, len).Ok? <==> Complete(f, len)
    ensures CheckFields(f, len) == Err(Overflow) ==> f.width > 0 && LayoutOf(f).start + Body(LayoutOf(f)) >= USIZE_LIMIT
  {
    if f.width > 0 && (f.bitCount == 24 || f.bitCount == 32) {
      BufferFits(LayoutOf(f));
    }
  }

  // ---------------------------------------------------------------------------
  // What the output is
  // ---------------------------------------------------------------------------

  lemma {:induction false} PixelOfRow(dib: Bytes, at: nat, bpp: nat, n: nat, col: nat)
    requires (bpp == 3 || bpp == 4) && at + Span(bpp, n) <= |dib| && col < n
    ensures RowPixels(dib, at, bpp, n)[4 * col..4 * col + 4] == Pixel(dib, at + Span(bpp, col), bpp)
    decreases n
  {
    if col < n - 1 {
      PixelOfRow(dib, at, bpp, n - 1, col);
      PrefixSlice(RowPixels(dib, at, bpp, n - 1), Pixel(dib, at + Span(bpp, n - 1), bpp), 4 * col, 4 * col + 4);
    } else {
      SuffixSlice(RowPixels(dib, at, bpp, n - 1), Pixel(dib, at + Span(bpp, n - 1), bpp));
    }
  }

  lemma PixelSlice(a: Bytes, base: nat, row: Bytes, p: nat)
    requires base + |row| <= |a| && a[base..base + |row|] == row && p + 4 <= |row|
    ensures a[base + p..base + p + 4] == row[p..p + 4]
  {
    assert forall i :: 0 <= i < |row| ==> a[base + i] == row[i];
  }

  lemma PixelOfRowOf(dib: Bytes, l: Layout, row: nat, col: nat)
    requires Fits(dib, l) && row < l.height && col < l.width
    ensures RowAt(l, row) + Span(l.bpp, col) + l.bpp <= |dib|
    ensures RowOf(dib, l, row)[4 * col..4 * col + 4] == Pixel(dib, RowAt(l, row) + Span(l.bpp, col), l.bpp)
  {
    RowFits(dib, l, row);
    PixelOfRow(dib, RowAt(l, row), l.bpp, l.width, col);
  }

  lemma PixelOfRows(dib: Bytes, l: Layout, row: nat, col: nat)
    requires Fits(dib, l) && row < l.height && col < l.width
    ensures var at, px := RowAt(l, row) + Span(l.bpp, col), RowBase(l.width, row) + 4 * col;
            && at + l.bpp <= |dib| && px + 4 <= |Flatten(Rows(dib, l, l.height))|
            && Flatten(Rows(dib, l, l.height))[px..px + 4] == Pixel(dib, at, l.bpp)
  {
    var rows, base := Rows(dib, l, l.height), RowBase(l.width, row);
    FlattenRow(rows, l.width, row);
    PixelOfRowOf(dib, l, row, col);
    PixelSlice(Flatten(rows), base, rows[row], 4 * col);
  }

  /** Pixel (row, col) of an accepted payload is the one stored `row` rows from the top -- from
      the end of the rows when they run from the bottom -- with blue and red exchanged, opaque if
      it has no alpha. */
  lemma DecodedPixel(dib: Bytes, row: nat, col: nat)
    requires Decoded(dib).Ok? && row < Decoded(dib).value.height && col < Decoded(dib).value.width
    ensures var l, img := ParseHeader(dib).value, Decoded(dib).value;
            var at, px := RowAt(l, row) + Span(l.bpp, col), RowBase(img.width, row) + 4 * col;
            && at + l.bpp <= |dib| && px + 4 <= |img.rgba|
            && img.rgba[px..px + 4] == [dib[at + 2], dib[at + 1], dib[at], if l.bpp == 4 then dib[at + 3] else 0xFF]
  {
    ParsedFits(dib);
    PixelOfRows(dib, ParseHeader(dib).value, row, col);
  }

  // ---------------------------------------------------------------------------
  // Row order
  // ---------------------------------------------------------------------------

  /** The same payload with the height negated. */
  ghost function Twin(dib: Bytes): (t: Bytes)
    requires |dib| >= 40
    ensures |t| == |dib|
  {
    dib[..8] + Le32(0 - AsI32(Word(dib, 8))) + dib[12..]
  }

  lemma TwinBytes(dib: Bytes)
    requires |dib| >= 40
    ensures Twin(dib)[..8] == dib[..8] && Twin(dib)[12..] == dib[12..] && Twin(dib)[8..12] == Le32(0 - AsI32(Word(dib, 8)))
  {
  }

  lemma SameWords(a: Bytes, b: Bytes)
    requires |a| == |b| >= 40 && a[..8] == b[..8] && a[12..] == b[12..]
    ensures Word(a, 0) == Word(b, 0) && Word(a, 4) == Word(b, 4) && Word(a, 16) == Word(b, 16) && HalfWord(a, 14) == HalfWord(b, 14)
  {
    assert a[0..4] == a[..8][0..4] && b[0..4] == b[..8][0..4];
    assert a[4..8] == a[..8][4..8] && b[4..8] == b[..8][4..8];
    assert a[14..16] == a[12..][2..4] && b[14..16] == b[12..][2..4];
    assert a[16..20] == a[12..][4..8] && b[16..20] == b[12..][4..8];
  }

  /** Unless the height is -2^31, which has no negative, the twin has the same layout with the
      rows in the other order. */
  lemma TwinFields(dib: Bytes)
    requires |dib| >= 40 && AsI32(Word(dib, 8)) != -I32_LIMIT
    ensures FieldsOf(Twin(dib)) == FieldsOf(dib).(height := -AsI32(Word(dib, 8)))
  {
    TwinBytes(dib);
    SameWords(Twin(dib), dib);
    NegatedWord(Word(dib, 8), Word(Twin(dib), 8));
  }

  lemma NegatedWord(u: nat, v: nat)
    requires u < U32_LIMIT && AsI32(u) != -I32_LIMIT && v == (0 - AsI32(u)) % U32_LIMIT
    ensures AsI32(v) == -AsI32(u)
  {
    var n := AsI32(u);
    if n > 0 {
      assert (0 - n) % U32_LIMIT == U32_LIMIT - n;
    } else {
      assert (0 - n) % U32_LIMIT == 0 - n;
    }
  }

  lemma NegatedLayout(f: Fields, len: nat)
    requires CheckFields(f, len).Ok?
    ensures var l := CheckFields(f, len).value; CheckFields(f.(height := -f.height), len) == Ok(l.(topDown := !l.topDown))
  {
    var l := LayoutOf(f);
    var t := LayoutOf(f.(height := -f.height));
    assert t == l.(topDown := !l.topDown);
    assert Stride(t) == Stride(l) && Body(t) == Body(l);
  }

  lemma SamePixel(dib: Bytes, twin: Bytes, at: nat, bpp: nat)
    requires |dib| == |twin| && (bpp == 3 || bpp == 4) && 12 <= at && at + bpp <= |dib| && twin[12..] == dib[12..]
    ensures Pixel(twin, at, bpp) == Pixel(dib, at, bpp)
  {
    assert forall i :: 12 <= i < |dib| ==> twin[i] == twin[12..][i - 12] && dib[i] == dib[12..][i - 12];
  }

  lemma {:induction false} RowPixelsSame(dib: Bytes, twin: Bytes, at: nat, bpp: nat, n: nat)
    requires |dib| == |twin| && (bpp == 3 || bpp == 4) && 12 <= at && at + Span(bpp, n) <= |dib|
    requires twin[12..] == dib[12..]
    ensures RowPixels(twin, at, bpp, n) == RowPixels(dib, at, bpp, n)
    decreases n
  {
    if n > 0 {
      RowPixelsSame(dib, twin, at, bpp, n - 1);
      SamePixel(dib, twin, at + Span(bpp, n - 1), bpp);
    }
  }

  lemma MirrorRow(l: Layout, m: Layout, row: nat)
    requires m == l.(topDown := !l.topDown) && row < l.height
    ensures RowAt(m, l.height - 1 - row) == RowAt(l, row) >= l.start
  {
    assert Stride(m) == Stride(l);
  }

  function Reverse(rows: seq<Bytes>): (r: seq<Bytes>)
    ensures |r| == |rows|
  {
    seq(|rows|, k requires 0 <= k < |rows| => rows[|rows| - 1 - k])
  }

  lemma RowsMirror(dib: Bytes, twin: Bytes, l: Layout, m: Layout)
    requires Fits(dib, l) && l.start >= 12 && |twin| == |dib| && twin[12..] == dib[12..] && m == l.(topDown := !l.topDown)
    requires Fits(twin, m)
    ensures Rows(twin, m, m.height) == Reverse(Rows(dib, l, l.height))
  {
    forall k: nat | k < l.height
      ensures RowOf(twin, m, k) == RowOf(dib, l, l.height - 1 - k)
    {
      MirrorRow(l, m, l.height - 1 - k);
      RowFits(dib, l, l.height - 1 - k);
      RowPixelsSame(dib, twin, RowAt(m, k), l.bpp, l.width);
    }
  }

  /** A payload and its twin decode to pictures that are row mirrors of each other: the same rows,
      one list the reverse of the other. */
  lemma TwinIsMirror(dib: Bytes) returns (rows: seq<Bytes>)
    requires Decoded(dib).Ok? && AsI32(Word(dib, 8)) != -I32_LIMIT
    ensures Decoded(Twin(dib)).Ok?
    ensures var a, b := Decoded(dib).value, Decoded(Twin(dib)).value;
            && b.width == a.width && b.height == a.height == |rows| && AllWide(rows, a.width)
            && a.rgba == Flatten(rows) && b.rgba == Flatten(Reverse(rows))
  {
    TwinFields(dib);
    TwinBytes(dib);
    NegatedLayout(FieldsOf(dib), |dib|);
    var l := ParseHeader(dib).value;
    ParsedFits(dib);
    ParsedFits(Twin(dib));
    RowsMirror(dib, Twin(dib), l, ParseHeader(Twin(dib)).value);
    rows := Rows(dib, l, l.height);
  }

  // ---------------------------------------------------------------------------
  // Round trip
  // ---------------------------------------------------------------------------

  lemma HeaderBytesAt(width: nat, height: nat, rest: Bytes)
    ensures var dib := Header(width, height) + rest; dib[..12] == Sizes(width, height) && dib[12..20] == Format()
  {
  }

  lemma HeaderFields(width: nat, height: nat, rest: Bytes)
    ensures FieldsOf(Header(width, height) + rest) == Fields(40, AsI32(width % U32_LIMIT), AsI32((0 - height) % U32_LIMIT), 32, 0)
  {
    var dib := Header(width, height) + rest;
    HeaderBytesAt(width, height, rest);
    assert dib[0..4] == dib[..12][0..4] == Le32(40);
    assert dib[4..8] == dib[..12][4..8] == Le32(width);
    assert dib[8..12] == dib[..12][8..12] == Le32(0 - height);
    assert dib[14..16] == dib[12..20][2..4] == Le16(32);
    assert dib[16..20] == dib[12..20][4..8] == Le32(0);
  }

  lemma {:induction false} BgraPixel(rgba: Bytes, n: nat, p: nat)
    requires 4 * n <= |rgba| && p < n
    ensures Bgra(rgba, n)[4 * p..4 * p + 4] == [rgba[4 * p + 2], rgba[4 * p + 1], rgba[4 * p], rgba[4 * p + 3]]
    decreases n
  {
    var last := [rgba[4 * n - 2], rgba[4 * n - 3], rgba[4 * n - 4], rgba[4 * n - 1]];
    if p < n - 1 {
      BgraPixel(rgba, n - 1, p);
      PrefixSlice(Bgra(rgba, n - 1), last, 4 * p, 4 * p + 4);
    } else {
      SuffixSlice(Bgra(rgba, n - 1), last);
    }
  }

  /** Reading pixel p of what was written. */
  lemma PixelBack(header: Bytes, rgba: Bytes, n: nat, p: nat)
    requires |header| == 40 && 4 * n <= |rgba| && p < n
    ensures Pixel(header + Bgra(rgba, n), 40 + 4 * p, 4) == rgba[4 * p..4 * p + 4]
  {
    BgraPixel(rgba, n, p);
    var b := Bgra(rgba, n);
    var px := b[4 * p..4 * p + 4];
    assert px[0] == b[4 * p] && px[1] == b[4 * p + 1] && px[2] == b[4 * p + 2] && px[3] == b[4 * p + 3];
  }

  lemma {:induction false} RowBack(header: Bytes, rgba: Bytes, n: nat, first: nat, m: nat)
    requires |header| == 40 && 4 * n <= |rgba| && first + m <= n
    ensures RowPixels(header + Bgra(rgba, n), 40 + 4 * first, 4, m) == rgba[4 * first..4 * (first + m)]
    decreases m
  {
    if m > 0 {
      RowBack(header, rgba, n, first, m - 1);
      PixelBack(header, rgba, n, first + m - 1);
      var mid := 4 * (first + m - 1);
      assert rgba[4 * first..mid] + rgba[mid..mid + 4] == rgba[4 * first..mid + 4];
    }
  }

  /** The rows of a picture. */
  ghost function Cut(rgba: Bytes, width: nat, n: nat): (r: seq<Bytes>)
    requires RowBase(width, n) <= |rgba|
    ensures |r| == n
  {
    if n == 0 then [] else Cut(rgba, width, n - 1) + [rgba[RowBase(width, n - 1)..RowBase(width, n)]]
  }

  lemma {:induction false} CutRow(rgba: Bytes, width: nat, n: nat, k: nat)
    requires RowBase(width, n) <= |rgba| && k < n
    ensures RowBase(width, k) + 4 * width <= |rgba| && Cut(rgba, width, n)[k] == rgba[RowBase(width, k)..RowBase(width, k) + 4 * width]
    decreases n
  {
    if k < n - 1 {
      CutRow(rgba, width, n - 1, k);
    }
  }

  lemma {:induction false} FlattenCut(rgba: Bytes, width: nat, n: nat)
    requires RowBase(width, n) <= |rgba|
    ensures Flatten(Cut(rgba, width, n)) == rgba[..RowBase(width, n)]
    decreases n
  {
    if n > 0 {
      FlattenCut(rgba, width, n - 1);
      FlattenSnoc(Cut(rgba, width, n - 1), rgba[RowBase(width, n - 1)..RowBase(width, n)]);
      SliceJoin(rgba, RowBase(width, n - 1), RowBase(width, n));
    }
  }

  lemma OneRowBack(header: Bytes, img: Image, dib: Bytes, l: Layout, k: nat)
    requires |header| == 40 && ValidImage(img) && l == Layout(img.width, img.height, true, 4, 40) && k < l.height
    requires dib == header + Bgra(img.rgba, Times(img.height, img.width)) && Fits(dib, l)
    ensures RowBase(img.width, k) + 4 * img.width <= |img.rgba|
    ensures RowOf(dib, l, k) == img.rgba[RowBase(img.width, k)..RowBase(img.width, k) + 4 * img.width]
  {
    var n, first := Times(img.height, img.width), Times(k, img.width);
    TopDownRow(l, k);
    TimesMonotone(k + 1, img.height, img.width, img.width);
    RowBack(header, img.rgba, n, first, img.width);
  }

  lemma RowsBack(header: Bytes, img: Image, dib: Bytes, l: Layout)
    requires |header| == 40 && ValidImage(img) && l == Layout(img.width, img.height, true, 4, 40)
    requires dib == header + Bgra(img.rgba, Times(img.height, img.width)) && Fits(dib, l)
    ensures Rows(dib, l, l.height) == Cut(img.rgba, img.width, img.height)
  {
    forall k: nat | k < l.height
      ensures RowOf(dib, l, k) == Cut(img.rgba, img.width, img.height)[k]
    {
      CutRow(img.rgba, img.width, img.height, k);
      OneRowBack(header, img, dib, l, k);
    }
  }

  lemma SliceJoin(a: Bytes, p: nat, q: nat)
    requires p <= q <= |a|
    ensures a[..p] + a[p..q] == a[..q]
  {
  }

  lemma TopDownRow(l: Layout, k: nat)
    requires l.topDown && l.bpp == 4 && l.start == 40 && k < l.height
    ensures RowAt(l, k) == 40 + 4 * Times(k, l.width)
  {
    assert Stride(l) == 4 * l.width;
    TimesScaled(k, l.width, 4);
  }

  lemma WrittenFields(width: nat, height: nat, len: nat)
    requires 0 < width < I32_LIMIT && 0 < height <= I32_LIMIT && len == 40 + RowBase(width, height)
    ensures CheckFields(Fields(40, width, 0 - height, 32, 0), len) == Ok(Layout(width, height, true, 4, 40))
  {
    var l := Layout(width, height, true, 4, 40);
    assert Stride(l) == 4 * width;
    TimesScaled(height, width, 4);
    TimesMonotone(height, I32_LIMIT, width, I32_LIMIT - 1);
    TimesIsProduct(I32_LIMIT, I32_LIMIT - 1);
  }

  lemma PixelsBack(header: Bytes, img: Image, dib: Bytes, l: Layout)
    requires |header| == 40 && ValidImage(img) && dib == header + Bgra(img.rgba, Times(img.height, img.width))
    requires l == Layout(img.width, img.height, true, 4, 40) && Fits(dib, l)
    ensures Flatten(Rows(dib, l, l.height)) == img.rgba
  {
    RowsBack(header, img, dib, l);
    FlattenCut(img.rgba, img.width, img.height);
    assert img.rgba[..|img.rgba|] == img.rgba;
  }

  lemma DecodedOk(dib: Bytes, l: Layout, rgba: Bytes)
    requires ParseHeader(dib) == Ok(l) && Fits(dib, l) && Flatten(Rows(dib, l, l.height)) == rgba
    ensures Decoded(dib) == Ok(Image(l.width, l.height, rgba))
  {
  }

  lemma WrittenBack(header: Bytes, img: Image, dib: Bytes)
    requires |header| == 40 && ValidImage(img) && dib == header + Bgra(img.rgba, Times(img.height, img.width))
    requires 0 < img.width < I32_LIMIT && 0 < img.height <= I32_LIMIT
    requires FieldsOf(dib) == Fields(40, img.width, 0 - img.height, 32, 0)
    ensures Decoded(dib) == Ok(img)
  {
    var l := Layout(img.width, img.height, true, 4, 40);
    WrittenFields(img.width, img.height, |dib|);
    assert ParseHeader(dib) == Ok(l);
    ParsedFits(dib);
    PixelsBack(header, img, dib, l);
    DecodedOk(dib, l, img.rgba);
  }

  lemma PositiveWord(n: nat)
    requires n < I32_LIMIT
    ensures AsI32(n % U32_LIMIT) == n
  {
  }

  lemma NegativeWord(n: nat)
    requires 0 < n <= I32_LIMIT
    ensures AsI32((0 - n) % U32_LIMIT) == 0 - n
  {
    assert (0 - n) % U32_LIMIT == U32_LIMIT - n;
  }

  lemma WrittenHeader(width: nat, height: nat, header: Bytes, rest: Bytes)
    requires 0 < width < I32_LIMIT && 0 < height <= I32_LIMIT && header == Header(width, height)
    ensures FieldsOf(header + rest) == Fields(40, width, 0 - height, 32, 0)
  {
    PositiveWord(width);
    NegativeWord(height);
    HeaderFields(width, height, rest);
  }

  lemma RoundTrip(img: Image)
    requires ValidImage(img) && 0 < img.width < I32_LIMIT && 0 < img.height <= I32_LIMIT
    ensures Decoded(Encoded(img)) == Ok(img)
  {
    var header, pixels := Header(img.width, img.height), Bgra(img.rgba, Times(img.height, img.width));
    WrittenHeader(img.width, img.height, header, pixels);
    WrittenBack(header, img, header + pixels);
  }

  /** A picture comes back if and only if its sides are positive, its width is below 2^31 and its
      height at most 2^31. */
  lemma RoundTripExactly(img: Image)
    requires ValidImage(img)
    ensures Decoded(Encoded(img)) == Ok(img) <==> 0 < img.width < I32_LIMIT && 0 < img.height <= I32_LIMIT
  {
    if 0 < img.width < I32_LIMIT && 0 < img.height <= I32_LIMIT {
      RoundTrip(img);
    } else {
      HeaderFields(img.width, img.height, Bgra(img.rgba, Times(img.height, img.width)));
    }
  }

  // ---------------------------------------------------------------------------
  // The same in plain numbers
  // ---------------------------------------------------------------------------

  /** The little-endian word at a place of a payload. */
  ghost function LeAt(b: Bytes, at: nat): int
    requires at + 4 <= |b|
  {
    (b[at] as int) + 256 * (b[at + 1] as int) + 65_536 * (b[at + 2] as int) + 16_777_216 * (b[at + 3] as int)
  }

  /** The same, read as a signed number. */
  ghost function SignedLeAt(b: Bytes, at: nat): int
    requires at + 4 <= |b|
  {
    if LeAt(b, at) < 2_147_483_648 then LeAt(b, at) else LeAt(b, at) - 4_294_967_296
  }

  ghost function HalfLeAt(b: Bytes, at: nat): int
    requires at + 2 <= |b|
  {
    (b[at] as int) + 256 * (b[at + 1] as int)
  }

  lemma WordIs(dib: Bytes, at: nat)
    requires at + 4 <= |dib|
    ensures Word(dib, at) == LeAt(dib, at) && AsI32(Word(dib, at)) == SignedLeAt(dib, at)
  {
  }

  lemma HalfWordIs(dib: Bytes, at: nat)
    requires at + 2 <= |dib|
    ensures HalfWord(dib, at) == HalfLeAt(dib, at)
  {
  }

  /** What the decoder takes from a header: five little-endian numbers, sizes signed. */
  lemma FieldsAre(dib: Bytes)
    requires |dib| >= 40
    ensures FieldsOf(dib) == Fields(LeAt(dib, 0), SignedLeAt(dib, 4), SignedLeAt(dib, 8), HalfLeAt(dib, 14), LeAt(dib, 16))
  {
    WordIs(dib, 0);
    WordIs(dib, 4);
    WordIs(dib, 8);
    WordIs(dib, 16);
    HalfWordIs(dib, 14);
  }

  /** A payload's numbers.  `start` is where pixels begin: after the header and, if it is the 40-byte
      one, 12 bytes of masks for compression 3 or 16 for compression 6.  Rows of 24 bits are padded
      to a multiple of 4 bytes. */
  ghost predicate Numbers(dib: Bytes, size: int, width: int, height: int, bits: int, compression: int, start: int, stride: int) {
    && |dib| >= 40
    && size == LeAt(dib, 0) && width == SignedLeAt(dib, 4) && height == SignedLeAt(dib, 8)
    && bits == HalfLeAt(dib, 14) && compression == LeAt(dib, 16)
    && start == size + (if size != 40 then 0 else if compression == 3 then 12 else if compression == 6 then 16 else 0)
    && stride == if bits == 32 then 4 * width else (3 * width + 3) / 4 * 4
  }

  ghost function Magnitude(height: int): nat { if height < 0 then -height else height }

  lemma LayoutIs(f: Fields, start: nat, stride: nat)
    requires f.width > 0 && (f.bitCount == 24 || f.bitCount == 32)
    requires start == f.size + (if f.size != 40 then 0 else if f.compression == 3 then 12 else if f.compression == 6 then 16 else 0)
    requires stride == if f.bitCount == 32 then 4 * f.width else (3 * f.width + 3) / 4 * 4
    ensures LayoutOf(f) == Layout(f.width, Magnitude(f.height), f.height < 0, if f.bitCount == 32 then 4 else 3, start)
    ensures Stride(LayoutOf(f)) == stride && Body(LayoutOf(f)) == Magnitude(f.height) * stride
  {
    TimesIsProduct(Magnitude(f.height), stride);
  }

  /** The outcome for any payload below 2^63 bytes: the first thing wrong with it, or its picture's
      size.  A payload that is too short is called truncated, or an overflow when what it would
      have to hold is beyond 2^64. */
  lemma OutcomeExactly(dib: Bytes, size: int, width: int, height: int, bits: int, compression: int, start: int, stride: int)
    requires |dib| < 0x8000_0000_0000_0000
    requires |dib| >= 40 ==> Numbers(dib, size, width, height, bits, compression, start, stride)
    ensures |dib| < 40 ==> Decoded(dib) == Err(TooShort)
    ensures |dib| >= 40 ==>
      match Decoded(dib)
      case Ok(img) =>
        && 40 <= size <= |dib| && width > 0 && height != 0 && compression in {0, 3, 6} && bits in {24, 32}
        && (compression != 0 ==> bits == 32) && start + Magnitude(height) * stride <= |dib|
        && img.width == width && img.height == Magnitude(height)
      case Err(e) =>
        e == if size < 40 || size > |dib| then BogusSize
             else if width <= 0 then BadWidth
             else if height == 0 then ZeroHeight
             else if compression !in {0, 3, 6} then BadCompression
             else if bits !in {24, 32} then BadBitCount
             else if compression != 0 && bits != 32 then BadBitfields
             else if start + Magnitude(height) * stride >= 0x1_0000_0000_0000_0000 then Overflow
             else Truncated
  {
    if |dib| >= 40 {
      var f := FieldsOf(dib);
      FieldsAre(dib);
      CheckedExactly(f, |dib|);
      if f.width > 0 && (f.bitCount == 24 || f.bitCount == 32) {
        LayoutIs(f, start, stride);
      }
    }
  }

  lemma PixelPlace(l: Layout, row: nat, col: nat, stored: nat, stride: nat)
    requires row < l.height && stride == Stride(l) && stored == (if l.topDown then row else l.height - 1 - row)
    ensures RowAt(l, row) + Span(l.bpp, col) == l.start + stored * stride + (if l.bpp == 4 then 4 else 3) * col
    ensures RowBase(l.width, row) + 4 * col == 4 * (row * l.width + col)
  {
    TimesIsProduct(row, l.width);
    TimesIsProduct(stored, stride);
  }

  lemma PixelBytes(rgba: Bytes, px: nat, dib: Bytes, at: nat, bpp: nat)
    requires px + 4 <= |rgba| && (bpp == 3 || bpp == 4) && at + bpp <= |dib|
    requires rgba[px..px + 4] == [dib[at + 2], dib[at + 1], dib[at], if bpp == 4 then dib[at + 3] else 0xFF]
    ensures rgba[px] == dib[at + 2] && rgba[px + 1] == dib[at + 1] && rgba[px + 2] == dib[at]
    ensures rgba[px + 3] == if bpp == 4 then dib[at + 3] else 255
  {
    var s := rgba[px..px + 4];
    assert s[0] == rgba[px] && s[1] == rgba[px + 1] && s[2] == rgba[px + 2] && s[3] == rgba[px + 3];
  }

  /** The layout of an accepted payload, from its numbers. */
  lemma LayoutOfNumbers(dib: Bytes, l: Layout, size: int, width: int, height: int, bits: int, compression: int, start: int, stride: int)
    requires ParseHeader(dib) == Ok(l) && Numbers(dib, size, width, height, bits, compression, start, stride)
    ensures width == l.width && Magnitude(height) == l.height && bits in {24, 32}
    ensures l.topDown == (height < 0) && l.bpp == (if bits == 32 then 4 else 3) && l.start == start && Stride(l) == stride
  {
    FieldsAre(dib);
    LayoutIs(FieldsOf(dib), start, stride);
  }

  lemma DecodedAs(dib: Bytes, img: Image, l: Layout, row: nat, col: nat, at: nat, px: nat)
    requires Decoded(dib) == Ok(img) && ParseHeader(dib) == Ok(l) && row < img.height && col < img.width
    requires at == RowAt(l, row) + Span(l.bpp, col) && px == RowBase(l.width, row) + 4 * col
    ensures at + l.bpp <= |dib| && px + 4 <= |img.rgba| && (l.bpp == 3 || l.bpp == 4)
    ensures img.rgba[px] == dib[at + 2] && img.rgba[px + 1] == dib[at + 1] && img.rgba[px + 2] == dib[at]
    ensures img.rgba[px + 3] == if l.bpp == 4 then dib[at + 3] else 255
  {
    ParsedFits(dib);
    DecodedPixel(dib, row, col);
    PixelBytes(img.rgba, px, dib, at, l.bpp);
  }

  /** Pixel (row, col) of an accepted payload, byte by byte: stored from the bottom up unless the
      height is negative, blue first, opaque if it has no alpha. */
  lemma DecodedBytes(dib: Bytes, img: Image, row: nat, col: nat, size: int, width: int, height: int, bits: int, compression: int,
                     start: int, stride: int, stored: int, at: int, px: int)
    requires Decoded(dib) == Ok(img) && Numbers(dib, size, width, height, bits, compression, start, stride)
    requires row < img.height && col < img.width && stored == if height < 0 then row else Magnitude(height) - 1 - row
    requires at == start + stored * stride + (if bits == 32 then 4 else 3) * col && px == 4 * (row * width + col)
    ensures width == img.width && Magnitude(height) == img.height && bits in {24, 32}
    ensures 0 <= at && at + (if bits == 32 then 4 else 3) <= |dib| && 0 <= px && px + 4 <= |img.rgba|
    ensures img.rgba[px] == dib[at + 2] && img.rgba[px + 1] == dib[at + 1] && img.rgba[px + 2] == dib[at]
    ensures img.rgba[px + 3] == if bits == 32 then dib[at + 3] else 255
  {
    var l := ParseHeader(dib).value;
    LayoutOfNumbers(dib, l, size, width, height, bits, compression, start, stride);
    PixelPlace(l, row, col, stored, stride);
    DecodedAs(dib, img, l, row, col, at, px);
  }

  /** The bytes of a written word. */
  lemma WrittenWord(b: Bytes, at: nat, n: int)
    requires at + 4 <= |b| && b[at..at + 4] == Le32(n)
    ensures LeAt(b, at) == n % 4_294_967_296
  {
    assert b[at..at + 4][0] == b[at] && b[at..at + 4][1] == b[at + 1] && b[at..at + 4][2] == b[at + 2] && b[at..at + 4][3] == b[at + 3];
  }

  lemma HeaderWordsAt(width: nat, height: nat)
    ensures var h := Header(width, height);
            && h[0..4] == Le32(40) && h[4..8] == Le32(width) && h[8..12] == Le32(0 - height) && h[12..14] == Le16(1) && h[14..16] == Le16(32)
            && h[16..20] == Le32(0) && h[20..24] == Le32(RowBase(width, height))
            && h[24..28] == Le32(0) && h[28..32] == Le32(0) && h[32..36] == Le32(0) && h[36..40] == Le32(0)
  {
  }

  /** A 40-byte header: the sizes as little-endian numbers, the height negated, one plane of 32 bits,
      no compression. */
  ghost predicate HeaderNumbers(out: Bytes, width: nat, height: nat) {
    && |out| >= 40
    && LeAt(out, 0) == 40 && LeAt(out, 4) == width && LeAt(out, 8) == (4_294_967_296 - height) % 4_294_967_296
    && out[12] == 1 && out[13] == 0 && out[14] == 32 && out[15] == 0 && LeAt(out, 16) == 0
    && LeAt(out, 20) == 4 * (height * width) % 4_294_967_296
    && LeAt(out, 24) == 0 && LeAt(out, 28) == 0 && LeAt(out, 32) == 0 && LeAt(out, 36) == 0
  }

  lemma WrittenNumbers(width: nat, height: nat, h: Bytes)
    requires width < U32_LIMIT && height < U32_LIMIT && h == Header(width, height)
    ensures HeaderNumbers(h, width, height)
  {
    HeaderWordsAt(width, height);
    TimesIsProduct(height, width);
    WrittenWord(h, 0, 40);
    WrittenWord(h, 4, width);
    WrittenWord(h, 8, 0 - height);
    WrittenWord(h, 16, 0);
    WrittenWord(h, 20, RowBase(width, height));
    WrittenWord(h, 24, 0);
    WrittenWord(h, 28, 0);
    WrittenWord(h, 32, 0);
    WrittenWord(h, 36, 0);
    NegatedHeight(height);
    assert h[12..14][0] == h[12] && h[12..14][1] == h[13] && h[14..16][0] == h[14] && h[14..16][1] == h[15];
  }

  lemma NegatedHeight(height: nat)
    ensures (0 - height) % 4_294_967_296 == (4_294_967_296 - height) % 4_294_967_296
  {
  }

  lemma NumbersOfPrefix(h: Bytes, rest: Bytes, width: nat, height: nat)
    requires |h| == 40 && HeaderNumbers(h, width, height)
    ensures HeaderNumbers(h + rest, width, height)
  {
    assert forall i :: 0 <= i < 40 ==> (h + rest)[i] == h[i];
  }

  /** A written payload begins with the header, and then has four bytes a pixel. */
  lemma EncodedHeader(img: Image)
    requires ValidImage(img)
    ensures HeaderNumbers(Encoded(img), img.width, img.height) && |Encoded(img)| == 40 + 4 * (img.height * img.width)
  {
    var h := Header(img.width, img.height);
    TimesIsProduct(img.height, img.width);
    WrittenNumbers(img.width, img.height, h);
    NumbersOfPrefix(h, Bgra(img.rgba, Times(img.height, img.width)), img.width, img.height);
  }

  /** ... blue first. */
  lemma EncodedPixel(img: Image, p: nat)
    requires ValidImage(img) && p < img.height * img.width
    ensures var out, at := Encoded(img), 40 + 4 * p;
            && at + 4 <= |out| && 4 * p + 4 <= |img.rgba|
            && out[at] == img.rgba[4 * p + 2] && out[at + 1] == img.rgba[4 * p + 1]
            && out[at + 2] == img.rgba[4 * p] && out[at + 3] == img.rgba[4 * p + 3]
  {
    TimesIsProduct(img.height, img.width);
    BgraPixel(img.rgba, Times(img.height, img.width), p);
    var b := Bgra(img.rgba, Times(img.height, img.width));
    assert b[4 * p..4 * p + 4][0] == b[4 * p] && b[4 * p..4 * p + 4][1] == b[4 * p + 1];
    assert b[4 * p..4 * p + 4][2] == b[4 * p + 2] && b[4 * p..4 * p + 4][3] == b[4 * p + 3];
  }
}
