/** The legacy display path: captured frames cut into bitmap updates, a bounded queue of them,
    and a full-frame resync after an overflow. */
module LegacyPaint {
  import opened Common

  const U16_MAX := 0xFFFF
  type U16 = n: nat | n <= U16_MAX

  /** Most pixels one bitmap update may hold. */
  const MAX_BITMAP_UPDATE_PIXELS := 1280 * 720

  datatype Rect = Rect(x: nat, y: nat, w: nat, h: nat)

  ghost predicate In(r: Rect, x: int, y: int) {
    r.x <= x < r.x + r.w && r.y <= y < r.y + r.h
  }

  // ---------------------------------------------------------------------------
  // Strips
  // ---------------------------------------------------------------------------

  /** Rows of one strip of an oversized rect. */
  function StripRows(w: nat): (r: nat)
    requires 0 < w <= U16_MAX
    ensures 0 < r <= U16_MAX && w * r <= MAX_BITMAP_UPDATE_PIXELS
  {
    var rows := Max(MAX_BITMAP_UPDATE_PIXELS / w, 1);
    assert w * (MAX_BITMAP_UPDATE_PIXELS / w) <= MAX_BITMAP_UPDATE_PIXELS;
    var r := Min(rows, U16_MAX);
    ScaleMono(w, r, rows);
    r
  }

  /** How many strips a w x h rect takes. */
  function StripCount(w: nat, h: nat): nat
    requires w <= U16_MAX
  {
    if w == 0 || h == 0 then 0
    else if w * h <= MAX_BITMAP_UPDATE_PIXELS then 1
    else (h + StripRows(w) - 1) / StripRows(w)
  }

  /** `strips` cut `r` into full-width bands, top to bottom, without gap or overlap, every band
      non-empty and within the pixel budget. */
  ghost predicate Bands(strips: seq<Rect>, r: Rect)
    decreases |strips|
  {
    if strips == [] then r.w == 0 || r.h == 0
    else
      var s := strips[0];
      && s.x == r.x && s.w == r.w > 0 && s.y == r.y && 0 < s.h <= r.h
      && s.w * s.h <= MAX_BITMAP_UPDATE_PIXELS
      && Bands(strips[1..], Rect(r.x, r.y + s.h, r.w, r.h - s.h))
  }

  lemma {:induction false} BandsAppend(strips: seq<Rect>, r: Rect, last: Rect)
    requires r.w > 0 && Bands(strips, r)
    requires 0 < last.h && last.w == r.w && last.x == r.x && last.y == r.y + r.h
    requires last.w * last.h <= MAX_BITMAP_UPDATE_PIXELS
    ensures Bands(strips + [last], Rect(r.x, r.y, r.w, r.h + last.h))
    decreases |strips|
  {
    if strips == [] {
      assert Bands([last][1..], Rect(r.x, r.y + last.h, r.w, 0));
    } else {
      var s := strips[0];
      assert (strips + [last])[1..] == strips[1..] + [last];
      BandsAppend(strips[1..], Rect(r.x, r.y + s.h, r.w, r.h - s.h), last);
    }
  }

  method SplitStrips(r: Rect) returns (out: seq<Rect>)
    requires r.w <= U16_MAX && r.y + r.h <= U16_MAX
    ensures Bands(out, r) && |out| == StripCount(r.w, r.h)
    ensures if r.w == 0 || r.h == 0 then out == []
            else if r.w * r.h <= 921_600 then out == [r]
            else EvenBands(out, r, 921_600 / r.w)
  {
    if r.w == 0 || r.h == 0 {
      return [];
    }
    if r.w * r.h <= MAX_BITMAP_UPDATE_PIXELS {
      assert Bands([r][1..], Rect(r.x, r.y + r.h, r.w, 0));
      return [r];
    }
    OversizedRows(r.w, r.h);
    var stripRows := StripRows(r.w);
    out := [];
    var row := 0;
    while row < r.h
      invariant row <= r.h
      invariant Bands(out, Rect(r.x, r.y, r.w, row))
      invariant row == Min(|out| * stripRows, r.h) && (row < r.h ==> row == |out| * stripRows)
      invariant |out| * stripRows < r.h + stripRows
      invariant EvenBands(out, r, stripRows)
    {
      var sh := Min(stripRows, r.h - row);
      ScaleMono(r.w, sh, stripRows);
      BandsAppend(out, Rect(r.x, r.y, r.w, row), Rect(r.x, r.y + row, r.w, sh));
      assert (|out| + 1) * stripRows == |out| * stripRows + stripRows;
      out := out + [Rect(r.x, r.y + row, r.w, sh)];
      row := row + sh;
    }
    CeilDiv(r.h, stripRows, |out|);
  }

  /** Band i begins i times `rows` further down, and is that high unless the rect ends first. */
  ghost predicate EvenBands(strips: seq<Rect>, r: Rect, rows: int) {
    forall i :: 0 <= i < |strips| ==> EvenBand(strips[i], r, i, rows)
  }

  ghost predicate EvenBand(s: Rect, r: Rect, i: int, rows: int) {
    s.x == r.x && s.y == r.y + i * rows && s.w == r.w && s.h == Min(rows, r.h - i * rows)
  }

  /** The clamps on the rows of a strip do not matter where a rect is oversized. */
  lemma OversizedRows(w: nat, h: nat)
    requires 0 < w <= U16_MAX && h <= U16_MAX && w * h > 921_600
    ensures StripRows(w) == 921_600 / w > 0
  {
    NarrowFits(w, h);
    RowsInRange(w);
  }

  lemma NarrowFits(w: nat, h: nat)
    requires h <= U16_MAX
    ensures w <= 14 ==> w * h <= 921_600
  {
    ScaleMono(w, h, U16_MAX);
  }

  lemma RowsInRange(w: nat)
    requires 14 < w <= U16_MAX
    ensures 0 < 921_600 / w <= U16_MAX
  {
    var q := 921_600 / w;
    assert 921_600 == w * q + 921_600 % w && w * q == q * w;
    ScaleMono(q, 15, w);
  }

  /** How many strips, in plain numbers. */
  lemma StripCountIs(w: nat, h: nat)
    requires w <= U16_MAX && h <= U16_MAX
    ensures StripCount(w, h) == if w == 0 || h == 0 then 0
                                else if w * h <= 921_600 then 1
                                else (h + 921_600 / w - 1) / (921_600 / w)
  {
    if w > 0 && h > 0 && w * h > 921_600 {
      OversizedRows(w, h);
    }
  }

  lemma CeilDiv(h: nat, s: nat, n: nat)
    requires s > 0 && h <= n * s < h + s
    ensures (h + s - 1) / s == n
  {
    var q := (h + s - 1) / s;
    assert h + s - 1 == s * q + (h + s - 1) % s && n * s == s * n && s * (n + 1) == s * n + s && s * (q + 1) == s * q + s;
    if q < n {
      ScaleMono(s, q + 1, n);
    } else if q > n {
      ScaleMono(s, n + 1, q);
    }
  }

  /** A pixel is in the rect exactly when it is in one of its bands. */
  lemma {:induction false} BandsCover(strips: seq<Rect>, r: Rect, x: int, y: int)
    requires Bands(strips, r)
    ensures In(r, x, y) <==> exists i :: 0 <= i < |strips| && In(strips[i], x, y)
    decreases |strips|
  {
    if strips != [] {
      var rest := Rect(r.x, r.y + strips[0].h, r.w, r.h - strips[0].h);
      BandsCover(strips[1..], rest, x, y);
      if In(rest, x, y) {
        var i :| 0 <= i < |strips[1..]| && In(strips[1..][i], x, y);
        assert In(strips[i + 1], x, y);
      }
      if i :| 0 <= i < |strips| && In(strips[i], x, y) {
        if i > 0 {
          assert In(strips[1..][i - 1], x, y);
        }
      }
    }
  }

  /** ... and in no more than one of them. */
  lemma {:induction false} BandsDisjoint(strips: seq<Rect>, r: Rect, i: nat, j: nat, x: int, y: int)
    requires Bands(strips, r) && i < j < |strips| && In(strips[i], x, y)
    ensures !In(strips[j], x, y)
    decreases |strips|
  {
    var rest := Rect(r.x, r.y + strips[0].h, r.w, r.h - strips[0].h);
    if i == 0 {
      BandsCover(strips[1..], rest, x, y);
      assert strips[j] == strips[1..][j - 1];
    } else {
      BandsDisjoint(strips[1..], rest, i - 1, j - 1, x, y);
    }
  }

  // ---------------------------------------------------------------------------
  // Frames and updates
  // ---------------------------------------------------------------------------

  /** Four bytes, BGRA. */
  type Pixel = seq<byte>

  datatype Frame = Frame(src: seq<byte>, stride: nat, w: U16, h: U16)

  ghost predicate RowOk(f: Frame, y: nat) {
    0 <= y * f.stride && y * f.stride + 4 * f.w <= |f.src|
  }

  /** Every row of the frame is inside the buffer. */
  ghost predicate FrameOk(f: Frame) {
    forall y :: 0 <= y < f.h ==> RowOk(f, y)
  }

  ghost function FramePixel(f: Frame, x: nat, y: nat): Pixel
    requires FrameOk(f) && x < f.w && y < f.h
  {
    assert RowOk(f, y);
    var i := y * f.stride + 4 * x;
    f.src[i..i + 4]
  }

  datatype Update =
    | Bitmap(rect: Rect, data: seq<byte>)
    | Cursor(shape: int)

  /** `n` rows of the rect, tightly packed. */
  ghost function CopiedRows(f: Frame, r: Rect, n: nat): (d: seq<byte>)
    requires FrameOk(f) && r.x + r.w <= f.w && r.y + n <= f.h
    ensures |d| == n * (4 * r.w)
  {
    if n == 0 then []
    else
      var off := (r.y + n - 1) * f.stride + 4 * r.x;
      assert RowOk(f, r.y + n - 1) && n * (4 * r.w) == (n - 1) * (4 * r.w) + 4 * r.w;
      CopiedRows(f, r, n - 1) + f.src[off..off + 4 * r.w]
  }

  method RectUpdate(f: Frame, r: Rect) returns (u: Option<Update>)
    requires FrameOk(f) && r.x + r.w <= f.w && r.y + r.h <= f.h
    ensures u == if r.w == 0 || r.h == 0 then None else Some(Bitmap(r, CopiedRows(f, r, r.h)))
  {
    if r.w == 0 || r.h == 0 {
      return None;
    }
    var rowBytes := r.w * 4;
    var data: seq<byte> := [];
    for row := 0 to r.h
      invariant data == CopiedRows(f, r, row)
    {
      assert RowOk(f, r.y + row);
      var srcOff := (r.y + row) * f.stride + r.x * 4;
      data := data + f.src[srcOff..srcOff + rowBytes];
    }
    u := Some(Bitmap(r, data));
  }

  /** Pixel (x, y) of the screen as an update carries it. */
  ghost function UpdatePixel(r: Rect, data: seq<byte>, x: nat, y: nat): Pixel
    requires In(r, x, y)
  {
    var i := PackedAt(r, x, y);
    if 0 <= i && i + 4 <= |data| then data[i..i + 4] else []
  }

  /** Where pixel (x, y) of the rect is in the packed copy. */
  ghost function PackedAt(r: Rect, x: nat, y: nat): int { (y - r.y) * (4 * r.w) + 4 * (x - r.x) }

  /** The packed copy holds the frame's own pixels, each at its place. */
  lemma {:induction false} CopiedPixel(f: Frame, r: Rect, n: nat, x: nat, y: nat)
    requires FrameOk(f) && r.x + r.w <= f.w && r.y + n <= f.h
    requires r.x <= x < r.x + r.w && r.y <= y < r.y + n
    ensures var i := (y - r.y) * (4 * r.w) + 4 * (x - r.x);
            0 <= i && i + 4 <= |CopiedRows(f, r, n)| && CopiedRows(f, r, n)[i..i + 4] == FramePixel(f, x, y)
  {
    if y - r.y == n - 1 {
      LastRowPixel(f, r, n, x);
    } else {
      CopiedPixel(f, r, n - 1, x, y);
      EarlierRowKept(f, r, n, PackedAt(r, x, y));
    }
  }

  /** Byte c of pixel (dx, dy) of the copy is byte c of pixel (r.x + dx, r.y + dy) of the frame. */
  lemma CopiedByte(f: Frame, r: Rect, dx: nat, dy: nat, c: nat)
    requires FrameOk(f) && r.x + r.w <= f.w && r.y + r.h <= f.h && dx < r.w && dy < r.h && c < 4
    ensures var i, k := dy * (4 * r.w) + 4 * dx + c, (r.y + dy) * f.stride + 4 * (r.x + dx) + c;
            0 <= i < |CopiedRows(f, r, r.h)| && 0 <= k < |f.src| && CopiedRows(f, r, r.h)[i] == f.src[k]
  {
    CopiedPixel(f, r, r.h, r.x + dx, r.y + dy);
    assert RowOk(f, r.y + dy);
    ByteOfSlices(CopiedRows(f, r, r.h), dy * (4 * r.w) + 4 * dx, f.src, (r.y + dy) * f.stride + 4 * (r.x + dx), c);
  }

  lemma ByteOfSlices(a: seq<byte>, i: nat, b: seq<byte>, k: nat, c: nat)
    requires i + 4 <= |a| && k + 4 <= |b| && c < 4 && a[i..i + 4] == b[k..k + 4]
    ensures a[i + c] == b[k + c]
  {
    assert a[i..i + 4][c] == b[k..k + 4][c];
  }

  lemma EarlierRowKept(f: Frame, r: Rect, n: nat, i: nat)
    requires FrameOk(f) && r.x + r.w <= f.w && r.y + n <= f.h && n > 0 && i + 4 <= |CopiedRows(f, r, n - 1)|
    ensures i + 4 <= |CopiedRows(f, r, n)| && CopiedRows(f, r, n)[i..i + 4] == CopiedRows(f, r, n - 1)[i..i + 4]
  {
    assert RowOk(f, r.y + n - 1);
    var off := (r.y + n - 1) * f.stride + 4 * r.x;
    SliceOfFirst(CopiedRows(f, r, n - 1), f.src[off..off + 4 * r.w], i);
  }

  lemma LastRowPixel(f: Frame, r: Rect, n: nat, x: nat)
    requires FrameOk(f) && r.x + r.w <= f.w && r.y + n <= f.h && n > 0 && r.x <= x < r.x + r.w
    ensures var i, y := (n - 1) * (4 * r.w) + 4 * (x - r.x), r.y + n - 1;
            0 <= i && i + 4 <= |CopiedRows(f, r, n)| && CopiedRows(f, r, n)[i..i + 4] == FramePixel(f, x, y)
  {
    assert RowOk(f, r.y + n - 1);
    var before, off, k := CopiedRows(f, r, n - 1), (r.y + n - 1) * f.stride + 4 * r.x, 4 * (x - r.x);
    SliceOfSum(before, f.src[off..off + 4 * r.w], k);
    SliceOfSlice(f.src, off, 4 * r.w, k);
  }

  lemma SliceOfFirst(a: seq<byte>, b: seq<byte>, k: nat)
    requires k + 4 <= |a|
    ensures (a + b)[k..k + 4] == a[k..k + 4]
  {
  }

  lemma SliceOfSlice(a: seq<byte>, off: nat, len: nat, k: nat)
    requires off + len <= |a| && k + 4 <= len
    ensures a[off..off + len][k..k + 4] == a[off + k..off + k + 4]
  {
    var b := a[off..off + len];
    assert b[k..k + 4] == [b[k], b[k + 1], b[k + 2], b[k + 3]];
  }

  lemma SliceOfSum(a: seq<byte>, b: seq<byte>, k: nat)
    requires k + 4 <= |b|
    ensures (a + b)[|a| + k..|a| + k + 4] == b[k..k + 4]
  {
  }

  // ---------------------------------------------------------------------------
  // What the client shows
  // ---------------------------------------------------------------------------

  type Picture = (int, int) -> Pixel

  ghost function Paint(pic: Picture, u: Update): Picture {
    match u
    case Cursor(_) => pic
    case Bitmap(r, data) => (x, y) => if x >= 0 && y >= 0 && In(r, x, y) then UpdatePixel(r, data, x, y) else pic(x, y)
  }

  ghost function PaintAll(pic: Picture, us: seq<Update>): Picture {
    if us == [] then pic else PaintAll(Paint(pic, us[0]), us[1..])
  }

  ghost predicate Covers(u: Update, x: int, y: int) {
    u.Bitmap? && In(u.rect, x, y)
  }

  ghost predicate CoveredBy(us: seq<Update>, x: int, y: int) {
    exists i :: 0 <= i < |us| && Covers(us[i], x, y)
  }

  ghost predicate InAny(rects: seq<Rect>, x: int, y: int) {
    exists k :: 0 <= k < |rects| && In(rects[k], x, y)
  }

  /** `u` shows a part of frame `f`. */
  ghost predicate ShowsPartOf(u: Update, f: Frame)
    requires FrameOk(f)
  {
    u.Bitmap? ==> u.rect.x + u.rect.w <= f.w && u.rect.y + u.rect.h <= f.h && u.data == CopiedRows(f, u.rect, u.rect.h)
  }

  /** Painting parts of one frame, in any order and overlapping in any way, shows that frame on
      every covered pixel and leaves the others. */
  lemma {:induction false} PaintedParts(pic: Picture, us: seq<Update>, f: Frame, x: nat, y: nat)
    requires FrameOk(f) && x < f.w && y < f.h
    requires forall u :: u in us ==> ShowsPartOf(u, f)
    ensures PaintAll(pic, us)(x, y)
         == if CoveredBy(us, x, y) then FramePixel(f, x, y) else pic(x, y)
    decreases |us|
  {
    if us != [] {
      var u := us[0];
      assert u in us && ShowsPartOf(u, f);
      PaintedParts(Paint(pic, u), us[1..], f, x, y);
      CoveredFirst(us, x, y);
      PaintedPart(pic, u, f, x, y);
    }
  }

  lemma PaintedPart(pic: Picture, u: Update, f: Frame, x: nat, y: nat)
    requires FrameOk(f) && x < f.w && y < f.h && ShowsPartOf(u, f)
    ensures Paint(pic, u)(x, y) == if Covers(u, x, y) then FramePixel(f, x, y) else pic(x, y)
  {
    if Covers(u, x, y) {
      var r, copy := u.rect, CopiedRows(f, u.rect, u.rect.h);
      CopiedPixel(f, r, r.h, x, y);
      var i := PackedAt(r, x, y);
      assert UpdatePixel(r, copy, x, y) == copy[i..i + 4];
      assert Paint(pic, u)(x, y) == UpdatePixel(r, copy, x, y);
    }
  }

  lemma CoveredFirst(us: seq<Update>, x: int, y: int)
    requires us != []
    ensures CoveredBy(us, x, y) <==> Covers(us[0], x, y) || CoveredBy(us[1..], x, y)
  {
    if i :| 0 <= i < |us| && Covers(us[i], x, y) {
      if i > 0 {
        assert Covers(us[1..][i - 1], x, y);
      }
    }
    if i :| 0 <= i < |us[1..]| && Covers(us[1..][i], x, y) {
      assert Covers(us[i + 1], x, y);
    }
  }

  // ---------------------------------------------------------------------------
  // The queue
  // ---------------------------------------------------------------------------

  /** A dirty rect as the capture service reports it, in whole pixels, possibly off-screen. */
  datatype DirtyRect = DirtyRect(x: int, y: int, w: int, h: int)

  /** The part of a dirty rect that is painted: the origin moved into the frame, then the size
      cut at its edges. */
  function Clamp(d: DirtyRect, w: U16, h: U16): (r: Rect)
    ensures r.x + r.w <= w && r.y + r.h <= h
  {
    var x, y := Min(Max(d.x, 0), w), Min(Max(d.y, 0), h);
    Rect(x, y, Min(Max(d.w, 0), w - x), Min(Max(d.h, 0), h - y))
  }

  /** Every on-screen pixel of the dirty rect is painted. */
  lemma ClampCovers(d: DirtyRect, w: U16, h: U16, x: nat, y: nat)
    requires x < w && y < h && d.x <= x < d.x + d.w && d.y <= y < d.y + d.h
    ensures In(Clamp(d, w, h), x, y)
  {
  }

  /** On the screen exactly these pixels of a dirty rect are painted: its origin is moved into the
      frame and its size, if positive, is counted from there. */
  lemma ClampExactly(d: DirtyRect, w: U16, h: U16, x: nat, y: nat)
    requires x < w && y < h
    ensures var r := Clamp(d, w, h);
            (r.x <= x < r.x + r.w && r.y <= y < r.y + r.h) <==>
              (Max(d.x, 0) <= x < Max(d.x, 0) + Max(d.w, 0) && Max(d.y, 0) <= y < Max(d.y, 0) + Max(d.h, 0))
  {
  }

  datatype Sample = Sample(frame: Frame, dirty: Option<seq<DirtyRect>>)

  datatype DisplayState = DisplayState(pending: seq<Update>, resyncFullFrame: bool, seeded: bool)

  ghost function Clamped(ds: seq<DirtyRect>, w: U16, h: U16): seq<Rect> {
    if ds == [] then []
    else
      var r := Clamp(ds[0], w, h);
      (if r.w == 0 || r.h == 0 then [] else [r]) + Clamped(ds[1..], w, h)
  }

  /** The rects to paint: the whole frame unless the dirty rects can be trusted and there are any. */
  ghost function RectsOf(st: DisplayState, forceFullFrame: bool, s: Sample): seq<Rect> {
    if !st.seeded || forceFullFrame || st.resyncFullFrame || s.dirty.None? || s.dirty.value == []
    then [Rect(0, 0, s.frame.w, s.frame.h)]
    else Clamped(s.dirty.value, s.frame.w, s.frame.h)
  }

  /** `us` paints `f` over exactly the pixels of `rects`. */
  ghost predicate Repaints(us: seq<Update>, f: Frame, rects: seq<Rect>)
    requires FrameOk(f)
  {
    && (forall u :: u in us ==> u.Bitmap? && ShowsPartOf(u, f))
    && forall x, y :: CoveredBy(us, x, y) <==> InAny(rects, x, y)
  }

  ghost function StripTotal(rects: seq<Rect>): nat
    requires forall r :: r in rects ==> r.w <= U16_MAX
  {
    if rects == [] then 0 else StripTotal(rects[..|rects| - 1]) + StripCount(rects[|rects| - 1].w, rects[|rects| - 1].h)
  }

  class ScreenCaptureUpdates {
    var pending: seq<Update>
    var resyncFullFrame: bool
    var seeded: bool
    const pendingLimit: nat
    const forceFullFrame: bool

    ghost function State(): DisplayState
      reads this
    {
      DisplayState(pending, resyncFullFrame, seeded)
    }

    constructor (pendingLimit: nat, forceFullFrame: bool)
      ensures State() == DisplayState([], false, false)
      ensures this.pendingLimit == pendingLimit && this.forceFullFrame == forceFullFrame
    {
      this.pendingLimit := pendingLimit;
      this.forceFullFrame := forceFullFrame;
      pending, resyncFullFrame, seeded := [], false, false;
    }

    /** One pass of the legacy update loop: cursor shapes first, then the queue, and only when
        the queue is empty the next captured sample. */
    method NextUpdate(cursors: seq<Update>, sample: Option<Sample>) returns (emitted: Option<Update>)
      requires forall u :: u in cursors ==> u.Cursor?
      requires sample.Some? ==> FrameOk(sample.value.frame)
      modifies this
      ensures PassResult(old(State()), pendingLimit, forceFullFrame, cursors, sample, emitted, State())
      ensures cursors != [] ==> emitted == Some(cursors[0]) && pending == cursors[1..] + old(pending)
      ensures cursors == [] && old(pending) != [] ==> emitted == Some(old(pending)[0]) && pending == old(pending)[1..]
      ensures cursors == [] && old(pending) == [] ==> emitted == None
      ensures cursors != [] || old(pending) != [] || sample == None ==>
                resyncFullFrame == old(resyncFullFrame) && seeded == old(seeded)
    {
      emitted := None;
      if cursors != [] {
        pending := cursors[1..] + pending;
        return Some(cursors[0]);
      }
      if pending != [] {
        emitted := Some(pending[0]);
        pending := pending[1..];
        return;
      }
      if sample.Some? {
        TakeSample(sample.value);
      }
    }

    method TakeSample(s: Sample)
      requires FrameOk(s.frame) && pending == []
      modifies this
      ensures SampleResult(old(State()), pendingLimit, forceFullFrame, s, State())
      ensures seeded && |pending| <= pendingLimit && (resyncFullFrame ==> pending == [] && !old(resyncFullFrame))
      ensures CaptureCovers(old(seeded), old(resyncFullFrame), forceFullFrame, s, State())
    {
      ghost var before := State();
      var resyncSample := resyncFullFrame;
      var rects := RectsToPaint(s);
      var queued := Cut(s.frame, rects);
      pending := pending + queued;
      if |pending| > pendingLimit {
        pending := [];
        resyncFullFrame := true;
      }
      if resyncSample && |pending| <= pendingLimit {
        resyncFullFrame := false;
      }
      seeded := true;
      SampleTaken(before, pendingLimit, forceFullFrame, s, queued, State());
    }

    method RectsToPaint(s: Sample) returns (rects: seq<Rect>)
      ensures rects == RectsOf(State(), forceFullFrame, s)
      ensures forall r :: r in rects ==> r.x + r.w <= s.frame.w && r.y + r.h <= s.frame.h
    {
      if !seeded || forceFullFrame || resyncFullFrame || s.dirty.None? || s.dirty.value == [] {
        rects := [Rect(0, 0, s.frame.w, s.frame.h)];
      } else {
        rects := ClampAll(s.dirty.value, s.frame.w, s.frame.h);
        ClampedInFrame(s.dirty.value, s.frame.w, s.frame.h);
      }
    }

    static method ClampAll(ds: seq<DirtyRect>, w: U16, h: U16) returns (rects: seq<Rect>)
      ensures rects == Clamped(ds, w, h)
    {
      rects := [];
      for i := 0 to |ds|
        invariant rects + Clamped(ds[i..], w, h) == Clamped(ds, w, h)
      {
        var r := Clamp(ds[i], w, h);
        assert ds[i..][1..] == ds[i + 1..];
        if r.w != 0 && r.h != 0 {
          rects := rects + [r];
        }
      }
    }

    /** Every rect in strips, every strip as an update. */
    static method Cut(f: Frame, rects: seq<Rect>) returns (us: seq<Update>)
      requires FrameOk(f) && forall r :: r in rects ==> r.x + r.w <= f.w && r.y + r.h <= f.h
      ensures Repaints(us, f, rects) && |us| == StripTotal(rects)
    {
      us := [];
      for k := 0 to |rects|
        invariant Repaints(us, f, rects[..k]) && |us| == StripTotal(rects[..k])
      {
        var strips := SplitStrips(rects[k]);
        var more := CutStrips(f, rects[k], strips);
        assert rects[..k + 1][..k] == rects[..k];
        RepaintsMore(us, more, f, rects[..k], rects[k]);
        us := us + more;
        assert rects[..k + 1] == rects[..k] + [rects[k]];
      }
      assert rects[..|rects|] == rects;
    }

    static method CutStrips(f: Frame, r: Rect, strips: seq<Rect>) returns (us: seq<Update>)
      requires FrameOk(f) && r.x + r.w <= f.w && r.y + r.h <= f.h && Bands(strips, r)
      ensures Repaints(us, f, [r]) && |us| == |strips|
    {
      us := [];
      for i := 0 to |strips|
        invariant |us| == i
        invariant forall j :: 0 <= j < i ==> us[j].Bitmap? && us[j].rect == strips[j] && ShowsPartOf(us[j], f)
      {
        BandInside(strips, r, i);
        var u := RectUpdate(f, strips[i]);
        us := us + [u.value];
      }
      StripsRepaint(us, f, r, strips);
    }
  }

  lemma {:induction false} BandInside(strips: seq<Rect>, r: Rect, i: nat)
    requires Bands(strips, r) && i < |strips|
    ensures strips[i].x == r.x && strips[i].w == r.w > 0 && strips[i].h > 0
    ensures r.y <= strips[i].y && strips[i].y + strips[i].h <= r.y + r.h
    decreases |strips|
  {
    if i > 0 {
      BandInside(strips[1..], Rect(r.x, r.y + strips[0].h, r.w, r.h - strips[0].h), i - 1);
    }
  }

  lemma StripsRepaint(us: seq<Update>, f: Frame, r: Rect, strips: seq<Rect>)
    requires FrameOk(f) && Bands(strips, r) && |us| == |strips|
    requires forall j :: 0 <= j < |us| ==> us[j].Bitmap? && us[j].rect == strips[j] && ShowsPartOf(us[j], f)
    ensures Repaints(us, f, [r])
  {
    forall x, y
      ensures CoveredBy(us, x, y) <==> InAny([r], x, y)
    {
      BandsCover(strips, r, x, y);
      if In(r, x, y) {
        var i :| 0 <= i < |strips| && In(strips[i], x, y);
        assert Covers(us[i], x, y) && In([r][0], x, y);
      }
      if i :| 0 <= i < |us| && Covers(us[i], x, y) {
        assert In(strips[i], x, y) && In([r][0], x, y);
      }
    }
  }

  lemma CoveredAppend(us: seq<Update>, more: seq<Update>, x: int, y: int)
    ensures CoveredBy(us + more, x, y) <==> CoveredBy(us, x, y) || CoveredBy(more, x, y)
  {
    if i :| 0 <= i < |us| && Covers(us[i], x, y) {
      assert Covers((us + more)[i], x, y);
    }
    if i :| 0 <= i < |more| && Covers(more[i], x, y) {
      assert Covers((us + more)[|us| + i], x, y);
    }
  }

  lemma InAnyAppend(rects: seq<Rect>, more: seq<Rect>, x: int, y: int)
    ensures InAny(rects + more, x, y) <==> InAny(rects, x, y) || InAny(more, x, y)
  {
    if i :| 0 <= i < |rects| && In(rects[i], x, y) {
      assert In((rects + more)[i], x, y);
    }
    if i :| 0 <= i < |more| && In(more[i], x, y) {
      assert In((rects + more)[|rects| + i], x, y);
    }
  }

  lemma RepaintsMore(us: seq<Update>, more: seq<Update>, f: Frame, rects: seq<Rect>, r: Rect)
    requires FrameOk(f) && Repaints(us, f, rects) && Repaints(more, f, [r])
    ensures Repaints(us + more, f, rects + [r])
  {
    forall x, y
      ensures CoveredBy(us + more, x, y) <==> InAny(rects + [r], x, y)
    {
      CoveredAppend(us, more, x, y);
      InAnyAppend(rects, [r], x, y);
    }
  }

  lemma {:induction false} ClampedInFrame(ds: seq<DirtyRect>, w: U16, h: U16)
    ensures forall r :: r in Clamped(ds, w, h) ==> r.x + r.w <= w && r.y + r.h <= h
  {
    if ds != [] {
      ClampedInFrame(ds[1..], w, h);
    }
  }

  ghost predicate Queued(st: DisplayState, forceFullFrame: bool, s: Sample, us: seq<Update>)
    requires FrameOk(s.frame)
  {
    var rects := RectsOf(st, forceFullFrame, s);
    Repaints(us, s.frame, rects) && (forall r :: r in rects ==> r.w <= U16_MAX) && |us| == StripTotal(rects)
  }

  /** A pixel of the frame that dirty rect d has painted. */
  ghost predicate DirtyPaints(d: DirtyRect, x: int, y: int) {
    Max(d.x, 0) <= x < Max(d.x, 0) + Max(d.w, 0) && Max(d.y, 0) <= y < Max(d.y, 0) + Max(d.h, 0)
  }

  /** The updates cover a pixel of the frame exactly when some dirty rect does or, when the dirty
      rects are not to be used, in any case. */
  ghost predicate SampleCovers(us: seq<Update>, s: Sample, byDirty: bool) {
    forall x, y :: 0 <= x < s.frame.w && 0 <= y < s.frame.h ==>
      (CoveredBy(us, x, y) <==>
        !byDirty || (s.dirty.Some? && exists k :: 0 <= k < |s.dirty.value| && DirtyPaints(s.dirty.value[k], x, y)))
  }

  /** What a capture has queued, unless it overflowed: exactly the dirty rects if the stream is
      seeded, no resync was owed and there are any, otherwise the whole frame. */
  ghost predicate CaptureCovers(wasSeeded: bool, owed: bool, forceFullFrame: bool, s: Sample, next: DisplayState) {
    && (!owed && !next.resyncFullFrame ==>
          SampleCovers(next.pending, s, wasSeeded && !forceFullFrame && s.dirty.Some? && s.dirty.value != []))
    && (owed && next.pending != [] ==> SampleCovers(next.pending, s, false))
  }

  lemma SampleTaken(st: DisplayState, limit: nat, forceFullFrame: bool, s: Sample, us: seq<Update>, next: DisplayState)
    requires FrameOk(s.frame) && Queued(st, forceFullFrame, s, us)
    requires next == DisplayState(if |us| > limit then [] else us, !st.resyncFullFrame && |us| > limit, true)
    ensures SampleResult(st, limit, forceFullFrame, s, next)
    ensures CaptureCovers(st.seeded, st.resyncFullFrame, forceFullFrame, s, next)
  {
    QueuedCovers(st, forceFullFrame, s, us);
  }

  lemma {:induction false} ClampedExactly(ds: seq<DirtyRect>, w: U16, h: U16, x: nat, y: nat)
    requires x < w && y < h
    ensures InAny(Clamped(ds, w, h), x, y) <==> exists k :: 0 <= k < |ds| && DirtyPaints(ds[k], x, y)
  {
    if ds != [] {
      var r := Clamp(ds[0], w, h);
      var first := if r.w == 0 || r.h == 0 then [] else [r];
      ClampExactly(ds[0], w, h, x, y);
      InAnyAppend(first, Clamped(ds[1..], w, h), x, y);
      ClampedExactly(ds[1..], w, h, x, y);
      assert DirtyPaints(ds[0], x, y) <==> In(r, x, y);
      assert InAny(first, x, y) <==> In(r, x, y) by {
        if In(r, x, y) {
          assert In(first[0], x, y);
        }
      }
      if k :| 0 <= k < |ds[1..]| && DirtyPaints(ds[1..][k], x, y) {
        assert DirtyPaints(ds[k + 1], x, y);
      }
      if k :| 0 <= k < |ds| && DirtyPaints(ds[k], x, y) {
        if k > 0 {
          assert DirtyPaints(ds[1..][k - 1], x, y);
        }
      }
    }
  }

  /** What one capture paints. */
  lemma QueuedCovers(st: DisplayState, forceFullFrame: bool, s: Sample, us: seq<Update>)
    requires FrameOk(s.frame) && Queued(st, forceFullFrame, s, us)
    ensures SampleCovers(us, s, st.seeded && !forceFullFrame && !st.resyncFullFrame && s.dirty.Some? && s.dirty.value != [])
  {
    var w, h, rects := s.frame.w, s.frame.h, RectsOf(st, forceFullFrame, s);
    var byDirty := st.seeded && !forceFullFrame && !st.resyncFullFrame && s.dirty.Some? && s.dirty.value != [];
    forall x, y | 0 <= x < w && 0 <= y < h
      ensures CoveredBy(us, x, y) <==>
        !byDirty || (s.dirty.Some? && exists k :: 0 <= k < |s.dirty.value| && DirtyPaints(s.dirty.value[k], x, y))
    {
      assert CoveredBy(us, x, y) <==> InAny(rects, x, y);
      if byDirty {
        ClampedExactly(s.dirty.value, w, h, x, y);
      } else {
        assert In(rects[0], x, y);
      }
    }
  }

  /** The state after a sample, taken with an empty queue. */
  ghost predicate SampleResult(st: DisplayState, limit: nat, forceFullFrame: bool, s: Sample, next: DisplayState)
    requires FrameOk(s.frame)
  {
    exists us :: Queued(st, forceFullFrame, s, us)
      && next.pending == (if |us| > limit then [] else us)
      && next.resyncFullFrame == (!st.resyncFullFrame && |us| > limit)
      && next.seeded
  }

  ghost predicate PassResult(st: DisplayState, limit: nat, forceFullFrame: bool,
                             cursors: seq<Update>, sample: Option<Sample>, emitted: Option<Update>, next: DisplayState)
    requires sample.Some? ==> FrameOk(sample.value.frame)
  {
    if cursors != [] then emitted == Some(cursors[0]) && next == st.(pending := cursors[1..] + st.pending)
    else if st.pending != [] then emitted == Some(st.pending[0]) && next == st.(pending := st.pending[1..])
    else if sample.Some? then emitted == None && SampleResult(st, limit, forceFullFrame, sample.value, next)
    else emitted == None && next == st
  }

  // ---------------------------------------------------------------------------
  // The client converges to the captured screen
  // ---------------------------------------------------------------------------

  /** Same pixels on the whole screen. */
  ghost predicate Shows(pic: Picture, f: Frame)
    requires FrameOk(f)
  {
    forall x, y :: 0 <= x < f.w && 0 <= y < f.h ==> pic(x, y) == FramePixel(f, x, y)
  }

  /** Once seeded, and unless a resync is owed, the client shows the last captured frame as soon
      as it has painted what is queued. */
  ghost predicate Synced(st: DisplayState, client: Picture, last: Frame)
    requires FrameOk(last)
  {
    st.seeded && !st.resyncFullFrame ==> Shows(PaintAll(client, st.pending), last)
  }

  /** The dirty rects of a sample, when it has any, cover every pixel that changed since `last`. */
  ghost predicate DirtyAccurate(last: Frame, s: Sample)
    requires FrameOk(last) && FrameOk(s.frame) && last.w == s.frame.w && last.h == s.frame.h
  {
    s.dirty.Some? && s.dirty.value != [] ==>
      forall x, y :: 0 <= x < last.w && 0 <= y < last.h && FramePixel(last, x, y) != FramePixel(s.frame, x, y) ==>
        exists k :: 0 <= k < |s.dirty.value| && InDirty(s.dirty.value[k], x, y)
  }

  ghost predicate InDirty(d: DirtyRect, x: int, y: int) {
    d.x <= x < d.x + d.w && d.y <= y < d.y + d.h
  }

  lemma {:induction false} ClampedCovers(ds: seq<DirtyRect>, k: nat, w: U16, h: U16, x: nat, y: nat)
    requires k < |ds| && InDirty(ds[k], x, y) && x < w && y < h
    ensures InAny(Clamped(ds, w, h), x, y)
    decreases |ds|
  {
    var r := Clamp(ds[0], w, h);
    var first := if r.w == 0 || r.h == 0 then [] else [r];
    InAnyAppend(first, Clamped(ds[1..], w, h), x, y);
    if k == 0 {
      ClampCovers(ds[0], w, h, x, y);
      assert In(first[0], x, y);
    } else {
      ClampedCovers(ds[1..], k - 1, w, h, x, y);
    }
  }

  /** A sample whose updates fit the queue brings the picture up to date. */
  lemma FittingSampleSyncs(st: DisplayState, forceFullFrame: bool, client: Picture, last: Frame, s: Sample, us: seq<Update>)
    requires FrameOk(last) && FrameOk(s.frame) && last.w == s.frame.w && last.h == s.frame.h
    requires Queued(st, forceFullFrame, s, us) && DirtyAccurate(last, s)
    requires st.seeded && !st.resyncFullFrame ==> Shows(client, last)
    ensures Shows(PaintAll(client, us), s.frame)
  {
    var f, rects := s.frame, RectsOf(st, forceFullFrame, s);
    forall x, y | 0 <= x < f.w && 0 <= y < f.h
      ensures PaintAll(client, us)(x, y) == FramePixel(f, x, y)
    {
      PaintedParts(client, us, f, x, y);
      assert CoveredBy(us, x, y) <==> InAny(rects, x, y);
      if rects == [Rect(0, 0, f.w, f.h)] {
        assert In(rects[0], x, y);
      } else if FramePixel(last, x, y) != FramePixel(f, x, y) {
        var k :| 0 <= k < |s.dirty.value| && InDirty(s.dirty.value[k], x, y);
        ClampedCovers(s.dirty.value, k, f.w, f.h, x, y);
      }
    }
  }

  lemma CursorsPaintNothing(pic: Picture, cursors: seq<Update>, us: seq<Update>)
    requires forall u :: u in cursors ==> u.Cursor?
    ensures PaintAll(pic, cursors + us) == PaintAll(pic, us)
    decreases |cursors|
  {
    if cursors == [] {
      assert cursors + us == us;
    } else {
      assert (cursors + us)[1..] == cursors[1..] + us && (cursors + us)[0] == cursors[0] && cursors[0] in cursors;
      CursorsPaintNothing(pic, cursors[1..], us);
    }
  }

  /** One input of the loop: cursor shapes that are due, a sample that is ready. */
  datatype Input = Input(cursors: seq<Update>, sample: Option<Sample>)

  ghost predicate GoodInput(i: Input, w: U16, h: U16) {
    && (forall u :: u in i.cursors ==> u.Cursor?)
    && (i.sample.Some? ==> FrameOk(i.sample.value.frame) && i.sample.value.frame.w == w && i.sample.value.frame.h == h)
  }

  ghost function Painted(client: Picture, emitted: Option<Update>): Picture {
    if emitted.Some? then Paint(client, emitted.value) else client
  }

  /** Does this pass of the loop get as far as the sample? */
  ghost predicate Samples(st: DisplayState, i: Input) {
    i.cursors == [] && st.pending == [] && i.sample.Some?
  }

  /** The frame last captured, after a pass. */
  ghost function LastFrame(st: DisplayState, i: Input, last: Frame): Frame {
    if Samples(st, i) then i.sample.value.frame else last
  }

  /** A capture keeps the client in step, and settles a resync that is owed. */
  lemma CaptureKeepsSynced(st: DisplayState, limit: nat, forceFullFrame: bool, client: Picture, last: Frame,
                           s: Sample, next: DisplayState)
    requires FrameOk(last) && FrameOk(s.frame) && last.w == s.frame.w && last.h == s.frame.h
    requires StripCount(last.w, last.h) <= limit && st.pending == []
    requires DirtyAccurate(last, s) && SampleResult(st, limit, forceFullFrame, s, next) && Synced(st, client, last)
    ensures Synced(next, client, s.frame)
    ensures st.resyncFullFrame || !st.seeded ==> !next.resyncFullFrame && Shows(PaintAll(client, next.pending), s.frame)
  {
    var us :| Queued(st, forceFullFrame, s, us)
      && next.pending == (if |us| > limit then [] else us)
      && next.resyncFullFrame == (!st.resyncFullFrame && |us| > limit) && next.seeded;
    assert PaintAll(client, st.pending) == client;
    FittingSampleSyncs(st, forceFullFrame, client, last, s, us);
    if st.resyncFullFrame || !st.seeded {
      FullFrameStrips(st, forceFullFrame, s);
    }
  }

  lemma FullFrameStrips(st: DisplayState, forceFullFrame: bool, s: Sample)
    requires st.resyncFullFrame || !st.seeded
    ensures RectsOf(st, forceFullFrame, s) == [Rect(0, 0, s.frame.w, s.frame.h)]
    ensures StripTotal([Rect(0, 0, s.frame.w, s.frame.h)]) == StripCount(s.frame.w, s.frame.h)
  {
    var full := [Rect(0, 0, s.frame.w, s.frame.h)];
    assert full[..0] == [] && StripTotal(full) == StripTotal(full[..0]) + StripCount(s.frame.w, s.frame.h);
  }

  /** Every pass of the loop keeps the client in step, given that the strips of a whole frame fit
      the queue.  A pass that captures while a resync is owed settles it. */
  lemma PassKeepsSynced(st: DisplayState, limit: nat, forceFullFrame: bool, client: Picture, last: Frame,
                        i: Input, emitted: Option<Update>, next: DisplayState)
    requires FrameOk(last) && GoodInput(i, last.w, last.h) && StripCount(last.w, last.h) <= limit
    requires Samples(st, i) ==> DirtyAccurate(last, i.sample.value)
    requires PassResult(st, limit, forceFullFrame, i.cursors, i.sample, emitted, next)
    requires Synced(st, client, last)
    ensures Synced(next, Painted(client, emitted), LastFrame(st, i, last))
    ensures Samples(st, i) && (st.resyncFullFrame || !st.seeded) ==>
      !next.resyncFullFrame && Shows(PaintAll(Painted(client, emitted), next.pending), i.sample.value.frame)
  {
    if i.cursors != [] {
      assert i.cursors[0] in i.cursors;
      CursorsPaintNothing(client, i.cursors[1..], st.pending);
    } else if st.pending == [] && i.sample.Some? {
      CaptureKeepsSynced(st, limit, forceFullFrame, client, last, i.sample.value, next);
    }
  }

  /** A run of the loop: what was fed in, the states, the emitted updates. */
  ghost predicate IsRun(inputs: seq<Input>, states: seq<DisplayState>, emitted: seq<Option<Update>>,
                        limit: nat, forceFullFrame: bool, w: U16, h: U16)
  {
    && |states| == |inputs| + 1 && |emitted| == |inputs|
    && states[0] == DisplayState([], false, false)
    && forall k :: 0 <= k < |inputs| ==>
         GoodInput(inputs[k], w, h)
         && PassResult(states[k], limit, forceFullFrame, inputs[k].cursors, inputs[k].sample, emitted[k], states[k + 1])
  }

  /** What the client shows, and the frame last captured, after k passes. */
  ghost function ClientAt(start: Picture, emitted: seq<Option<Update>>, k: nat): Picture
    requires k <= |emitted|
  {
    if k == 0 then start else Painted(ClientAt(start, emitted, k - 1), emitted[k - 1])
  }

  ghost function LastAt(blank: Frame, inputs: seq<Input>, states: seq<DisplayState>, k: nat): Frame
    requires k <= |inputs| < |states|
  {
    if k == 0 then blank else LastFrame(states[k - 1], inputs[k - 1], LastAt(blank, inputs, states, k - 1))
  }

  /** Every sample taken in the first k passes has dirty rects that cover what changed, if any. */
  ghost predicate AccurateRun(inputs: seq<Input>, states: seq<DisplayState>, emitted: seq<Option<Update>>,
                              limit: nat, forceFullFrame: bool, blank: Frame, k: nat)
  {
    && FrameOk(blank) && IsRun(inputs, states, emitted, limit, forceFullFrame, blank.w, blank.h) && k <= |inputs|
    && forall j :: 0 <= j < k && Samples(states[j], inputs[j]) ==> AccurateAt(inputs, states, blank, j)
  }

  ghost predicate AccurateAt(inputs: seq<Input>, states: seq<DisplayState>, blank: Frame, j: nat)
    requires j < |inputs| < |states| && inputs[j].sample.Some?
  {
    var last, s := LastAt(blank, inputs, states, j), inputs[j].sample.value;
    FrameOk(last) && FrameOk(s.frame) && last.w == s.frame.w == blank.w && last.h == s.frame.h == blank.h && DirtyAccurate(last, s)
  }

  ghost predicate SyncedAt(inputs: seq<Input>, states: seq<DisplayState>, emitted: seq<Option<Update>>,
                           start: Picture, blank: Frame, k: nat)
    requires k <= |inputs| == |emitted| < |states|
  {
    var last := LastAt(blank, inputs, states, k);
    FrameOk(last) && Synced(states[k], ClientAt(start, emitted, k), last)
  }

  /** Whole runs: at every point where no resync is owed, the queued updates bring the client to
      exactly the last captured frame.  `blank` stands for the screen before the first capture. */
  lemma {:induction false} ClientConverges(inputs: seq<Input>, states: seq<DisplayState>, emitted: seq<Option<Update>>,
                                           limit: nat, forceFullFrame: bool, start: Picture, blank: Frame, k: nat)
    requires AccurateRun(inputs, states, emitted, limit, forceFullFrame, blank, k) && StripCount(blank.w, blank.h) <= limit
    ensures SyncedAt(inputs, states, emitted, start, blank, k)
    ensures LastAt(blank, inputs, states, k).w == blank.w && LastAt(blank, inputs, states, k).h == blank.h
  {
    if k > 0 {
      ClientConverges(inputs, states, emitted, limit, forceFullFrame, start, blank, k - 1);
      PassAt(inputs, states, emitted, limit, forceFullFrame, blank, k, k - 1);
      PassKeepsSynced(states[k - 1], limit, forceFullFrame, ClientAt(start, emitted, k - 1), LastAt(blank, inputs, states, k - 1),
                      inputs[k - 1], emitted[k - 1], states[k]);
    }
  }

  lemma PassAt(inputs: seq<Input>, states: seq<DisplayState>, emitted: seq<Option<Update>>,
               limit: nat, forceFullFrame: bool, blank: Frame, k: nat, j: nat)
    requires AccurateRun(inputs, states, emitted, limit, forceFullFrame, blank, k) && k == j + 1
    ensures GoodInput(inputs[j], blank.w, blank.h)
    ensures PassResult(states[j], limit, forceFullFrame, inputs[j].cursors, inputs[j].sample, emitted[j], states[k])
    ensures Samples(states[j], inputs[j]) ==> AccurateAt(inputs, states, blank, j)
  {
  }

  // ---------------------------------------------------------------------------
  // Exactly when it converges
  // ---------------------------------------------------------------------------

  lemma {:induction false} BandsExist(r: Rect, rows: nat) returns (strips: seq<Rect>)
    requires r.w > 0 && rows > 0 && r.w * rows <= MAX_BITMAP_UPDATE_PIXELS
    ensures Bands(strips, r) && r.h <= |strips| * rows < r.h + rows
    decreases r.h
  {
    if r.h == 0 {
      strips := [];
    } else {
      var first := Rect(r.x, r.y, r.w, Min(rows, r.h));
      var rest := BandsExist(Rect(r.x, r.y + first.h, r.w, r.h - first.h), rows);
      ScaleMono(r.w, first.h, rows);
      CountStep(|rest|, rows, r.h);
      strips := [first] + rest;
      assert strips[1..] == rest;
    }
  }

  lemma CountStep(n: nat, rows: nat, h: nat)
    requires h > 0 && rows > 0 && h - Min(rows, h) <= n * rows < h - Min(rows, h) + rows
    ensures h <= (n + 1) * rows < h + rows
  {
    assert (n + 1) * rows == n * rows + rows;
    if h < rows && n > 0 {
      ScaleMono(rows, 1, n);
    }
  }

  lemma StripsExist(r: Rect) returns (strips: seq<Rect>)
    requires r.w <= U16_MAX && r.h <= U16_MAX
    ensures Bands(strips, r) && |strips| == StripCount(r.w, r.h)
  {
    if r.w == 0 || r.h == 0 {
      strips := [];
    } else if r.w * r.h <= MAX_BITMAP_UPDATE_PIXELS {
      strips := [r];
      assert strips[1..] == [] && Bands([], Rect(r.x, r.y + r.h, r.w, 0));
    } else {
      strips := BandsExist(r, StripRows(r.w));
      CeilDiv(r.h, StripRows(r.w), |strips|);
    }
  }

  /** A whole frame can be queued, as that many updates. */
  lemma FullFrameUpdates(f: Frame) returns (us: seq<Update>)
    requires FrameOk(f)
    ensures Repaints(us, f, [Rect(0, 0, f.w, f.h)]) && |us| == StripCount(f.w, f.h)
  {
    var r := Rect(0, 0, f.w, f.h);
    var strips := StripsExist(r);
    us := [];
    for i := 0 to |strips|
      invariant |us| == i
      invariant forall j :: 0 <= j < i ==> us[j].Bitmap? && us[j].rect == strips[j] && ShowsPartOf(us[j], f)
    {
      BandInside(strips, r, i);
      us := us + [Bitmap(strips[i], CopiedRows(f, strips[i], strips[i].h))];
    }
    StripsRepaint(us, f, r, strips);
  }

  /** A full-frame sample that does not fit leaves the queue empty and flips the flag. */
  lemma FullFrameOverflows(st: DisplayState, limit: nat, forceFullFrame: bool, s: Sample)
    requires FrameOk(s.frame) && s.dirty.None? && StripCount(s.frame.w, s.frame.h) > limit
    ensures SampleResult(st, limit, forceFullFrame, s, DisplayState([], !st.resyncFullFrame, true))
  {
    var us := FullFrameUpdates(s.frame);
    var full := [Rect(0, 0, s.frame.w, s.frame.h)];
    assert full[..0] == [] && StripTotal(full) == StripTotal(full[..0]) + StripCount(s.frame.w, s.frame.h);
    assert Queued(st, forceFullFrame, s, us);
  }

  /** A white frame of any size. */
  ghost function White(w: U16, h: U16): Frame {
    ProductNat(h, 4 * w);
    Frame(seq(h * (4 * w), i => 255), 4 * w, w, h)
  }

  lemma ProductNat(a: nat, b: nat)
    ensures a * b >= 0
  {
  }

  lemma WhiteRow(w: U16, h: U16, y: nat)
    requires y < h
    ensures RowOk(White(w, h), y)
  {
    ProductRow(4 * w, y, h);
  }

  lemma ProductRow(s: nat, y: nat, h: nat)
    requires y < h
    ensures 0 <= y * s && y * s + s <= h * s
  {
    ScaleMono(s, y + 1, h);
    assert s * (y + 1) == y * s + s && s * h == h * s;
  }

  lemma WhiteOk(w: U16, h: U16)
    ensures FrameOk(White(w, h))
    ensures w > 0 && h > 0 ==> FramePixel(White(w, h), 0, 0)[0] == 255
  {
    forall y | 0 <= y < h
      ensures RowOk(White(w, h), y)
    {
      WhiteRow(w, h, y);
    }
  }

  /** A run with two captures of the same frame, too large for the queue: the second overflow
      clears the flag that the first one set. */
  lemma UnsyncedRun(w: U16, h: U16, limit: nat, forceFullFrame: bool)
    returns (inputs: seq<Input>, states: seq<DisplayState>, emitted: seq<Option<Update>>, start: Picture)
    requires StripCount(w, h) > limit
    ensures AccurateRun(inputs, states, emitted, limit, forceFullFrame, White(w, h), 2)
    ensures !SyncedAt(inputs, states, emitted, start, White(w, h), 2)
  {
    var f := White(w, h);
    WhiteOk(w, h);
    var s := Sample(f, None);
    var s0, s1, s2 := DisplayState([], false, false), DisplayState([], true, true), DisplayState([], false, true);
    FullFrameOverflows(s0, limit, forceFullFrame, s);
    FullFrameOverflows(s1, limit, forceFullFrame, s);
    inputs, states, emitted := [Input([], Some(s)), Input([], Some(s))], [s0, s1, s2], [None, None];
    start := (x, y) => [0, 0, 0, 0];
    assert PassResult(states[0], limit, forceFullFrame, inputs[0].cursors, inputs[0].sample, emitted[0], states[0 + 1]);
    assert PassResult(states[1], limit, forceFullFrame, inputs[1].cursors, inputs[1].sample, emitted[1], states[1 + 1]);
    LastIs(inputs, states, f);
    assert ClientAt(start, emitted, 1) == start;
    assert ClientAt(start, emitted, 2) == start && PaintAll(start, []) == start;
    assert start(0, 0)[0] != FramePixel(f, 0, 0)[0];
  }

  lemma LastIs(inputs: seq<Input>, states: seq<DisplayState>, f: Frame)
    requires |inputs| == 2 && |states| == 3 && inputs[0].sample.Some? && inputs[1].sample.Some?
    requires inputs[0].sample.value.frame == f && inputs[1].sample.value.frame == f
    ensures LastAt(f, inputs, states, 0) == f && LastAt(f, inputs, states, 1) == f && LastAt(f, inputs, states, 2) == f
  {
  }

  /** The loop keeps every client in step, in every run with accurate dirty rects. */
  ghost predicate AlwaysSynced(w: U16, h: U16, limit: nat, forceFullFrame: bool) {
    forall inputs, states, emitted, start, blank, k ::
      AccurateRun(inputs, states, emitted, limit, forceFullFrame, blank, k) && blank.w == w && blank.h == h ==>
        SyncedAt(inputs, states, emitted, start, blank, k)
  }

  /** ... if and only if the strips of a whole frame fit the queue. */
  lemma AlwaysSyncedExactly(w: U16, h: U16, limit: nat, forceFullFrame: bool)
    ensures AlwaysSynced(w, h, limit, forceFullFrame) <==> StripCount(w, h) <= limit
  {
    if StripCount(w, h) <= limit {
      forall inputs, states, emitted, start, blank, k |
        AccurateRun(inputs, states, emitted, limit, forceFullFrame, blank, k) && blank.w == w && blank.h == h
        ensures SyncedAt(inputs, states, emitted, start, blank, k)
      {
        ClientConverges(inputs, states, emitted, limit, forceFullFrame, start, blank, k);
      }
    } else {
      var inputs, states, emitted, start := UnsyncedRun(w, h, limit, forceFullFrame);
      assert AccurateRun(inputs, states, emitted, limit, forceFullFrame, White(w, h), 2);
    }
  }

  /** At 7680 x 4320 a whole frame is 36 strips, so the default limit of 32 does not keep clients in step. */
  lemma EightKTooLarge(forceFullFrame: bool)
    ensures StripCount(7680, 4320) == 36 && !AlwaysSynced(7680, 4320, 32, forceFullFrame)
  {
    AlwaysSyncedExactly(7680, 4320, 32, forceFullFrame);
  }

  /** No dirty rects are reported: every sample repaints the whole frame. */
  ghost predicate FullFramesOnly(inputs: seq<Input>, forceFullFrame: bool) {
    forceFullFrame || forall k :: 0 <= k < |inputs| && inputs[k].sample.Some? ==>
      inputs[k].sample.value.dirty.None? || inputs[k].sample.value.dirty.value == []
  }

  ghost predicate OnlyCursors(us: seq<Update>) { forall u :: u in us ==> u.Cursor? }

  lemma OversizedPass(st: DisplayState, limit: nat, forceFullFrame: bool, i: Input, emitted: Option<Update>, next: DisplayState, w: U16, h: U16)
    requires GoodInput(i, w, h) && StripCount(w, h) > limit && OnlyCursors(st.pending)
    requires i.sample.Some? ==> forceFullFrame || i.sample.value.dirty.None? || i.sample.value.dirty.value == []
    requires PassResult(st, limit, forceFullFrame, i.cursors, i.sample, emitted, next)
    ensures OnlyCursors(next.pending) && (emitted.Some? ==> emitted.value.Cursor?)
  {
    if i.cursors == [] && st.pending == [] && i.sample.Some? {
      var full := [Rect(0, 0, w, h)];
      assert RectsOf(st, forceFullFrame, i.sample.value) == full;
      assert full[..0] == [] && StripTotal(full) == StripTotal(full[..0]) + StripCount(w, h);
    }
  }

  /** With whole frames only, a frame that is too large for the queue is never shown, in no run and
      at no point: nothing but cursor shapes is ever sent, and the client keeps what it showed. */
  lemma {:induction false} OversizedFrameNeverShown(inputs: seq<Input>, states: seq<DisplayState>, emitted: seq<Option<Update>>,
                                                    limit: nat, forceFullFrame: bool, w: U16, h: U16, start: Picture, k: nat)
    requires IsRun(inputs, states, emitted, limit, forceFullFrame, w, h) && FullFramesOnly(inputs, forceFullFrame)
    requires StripCount(w, h) > limit && k <= |inputs|
    ensures OnlyCursors(states[k].pending) && (k > 0 && emitted[k - 1].Some? ==> emitted[k - 1].value.Cursor?)
    ensures ClientAt(start, emitted, k) == start
  {
    if k > 0 {
      OversizedFrameNeverShown(inputs, states, emitted, limit, forceFullFrame, w, h, start, k - 1);
      OversizedPass(states[k - 1], limit, forceFullFrame, inputs[k - 1], emitted[k - 1], states[k], w, h);
    }
  }
}
