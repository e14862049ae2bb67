/** AVC444 plane packing: one full-resolution YUV444 frame as two YUV420 views.

    A plane is a flat buffer with a row stride.  Read-only slices are sequences, the
    slices a pass writes are arrays.  What a pass leaves in a plane is stated by a
    `Paint`: the sample that belongs at column x of row y, or `None` where the buffer
    keeps what it held before. */
module Avc444 {
  import opened Common

  datatype Plane = Plane(data: seq<byte>, stride: nat)

  datatype PlaneMut = PlaneMut(buf: array<byte>, stride: nat) {
    ghost function View(): Plane
      reads buf
    {
      Plane(buf[..], stride)
    }
  }

  type Paint = (int, int) -> Option<byte>

  /** Height of the auxiliary Y plane. */
  function PaddedAuxHeight(height: nat): (r: nat)
    ensures height < r <= height + 16 && r % 16 == 0
  {
    height - height % 16 + 16
  }

  /** The slices `y * stride .. y * stride + w` of the first `rows` rows are in bounds
      and do not overlap. */
  ghost predicate Fits(len: nat, stride: nat, w: nat, rows: nat) {
    w <= stride && (rows == 0 || (rows - 1) * stride + w <= len)
  }

  ghost predicate PlaneFits(p: Plane, w: nat, rows: nat) {
    Fits(|p.data|, p.stride, w, rows)
  }

  /** The sample at column x of row y. */
  ghost function At(p: Plane, x: int, y: int): byte {
    var i := y * p.stride + x;
    if 0 <= i < |p.data| then p.data[i] else 0
  }

  ghost predicate InFrame(x: int, y: int, w: int, h: int) {
    0 <= x < w && 0 <= y < h
  }

  ghost function PaintedCell(prior: byte, stride: nat, g: Paint, i: nat): byte {
    if stride == 0 then prior
    else match g(i % stride, i / stride)
      case None => prior
      case Some(b) => b
  }

  /** The plane `p` with every sample of `g` written over it. */
  ghost function Painted(p: Plane, g: Paint): (r: Plane)
    ensures |r.data| == |p.data| && r.stride == p.stride
  {
    p.(data := seq(|p.data|, i requires 0 <= i < |p.data| => PaintedCell(p.data[i], p.stride, g, i)))
  }

  /** `g` on the rows above `n` only. */
  ghost function Below(g: Paint, n: int): Paint {
    (x, y) => if y < n then g(x, y) else None
  }

  // ---------------------------------------------------------------------------
  // Strided index arithmetic
  // ---------------------------------------------------------------------------

  lemma RowOf(i: nat, stride: nat, y: nat)
    requires y * stride <= i < (y + 1) * stride
    ensures i / stride == y && i % stride == i - y * stride
  {
    var q := i / stride;
    assert i == q * stride + i % stride;
    if q < y {
      MulMono(q + 1, y, stride);
    } else if q > y {
      MulMono(y + 1, q, stride);
    }
  }

  lemma MulMono(a: int, b: int, s: nat)
    requires a <= b
    ensures a * s <= b * s
  {
    assert (b - a) * s >= 0;
  }

  /** Row `y` of a plane that fits `rows` rows lies inside the buffer. */
  lemma RowInBounds(len: nat, stride: nat, w: nat, rows: nat, y: nat)
    requires Fits(len, stride, w, rows) && y < rows
    ensures 0 <= y * stride && y * stride + w <= len
    ensures (y + 1) * stride == y * stride + stride
  {
    MulMono(y, rows - 1, stride);
  }

  /** What is read back from a painted plane. */
  lemma AtPainted(p: Plane, g: Paint, x: int, y: int, w: nat, rows: nat)
    requires PlaneFits(p, w, rows) && InFrame(x, y, w, rows)
    ensures At(Painted(p, g), x, y) == match g(x, y) case Some(b) => b case None => At(p, x, y)
  {
    RowInBounds(|p.data|, p.stride, w, rows, y);
    RowOf(y * p.stride + x, p.stride, y);
  }

  /** Painting n more rows: `after` differs from `before` by exactly rows y .. y+n of `g`. */
  lemma RowsStep(prior: Plane, before: Plane, after: Plane, g: Paint, y: nat, n: nat)
    requires before == Painted(prior, Below(g, y))
    requires after.stride == prior.stride && |after.data| == |prior.data|
    requires forall i {:trigger after.data[i]} :: 0 <= i < |prior.data| ==>
      after.data[i] == if y * prior.stride <= i < (y + n) * prior.stride
                       then PaintedCell(before.data[i], prior.stride, g, i) else before.data[i]
    ensures after == Painted(prior, Below(g, y + n))
  {
    var s := prior.stride;
    forall i | 0 <= i < |prior.data|
      ensures after.data[i] == PaintedCell(prior.data[i], s, Below(g, y + n), i)
    {
      if s > 0 {
        var q := i / s;
        assert i == q * s + i % s;
        if q < y {
          MulMono(q + 1, y, s);
        } else if q < y + n {
          MulMono(y, q, s);
          MulMono(q + 1, y + n, s);
        } else {
          MulMono(y + n, q, s);
        }
      }
    }
  }

  // ---------------------------------------------------------------------------
  // What each pass writes
  // ---------------------------------------------------------------------------

  /** B1: the full-resolution copy. */
  ghost function CopyPaint(src: Plane, w: nat, h: nat): Paint {
    (x, y) => if InFrame(x, y, w, h) then Some(At(src, x, y)) else None
  }

  /** B2, B3 (dx = 0) and B6, B7 (dx = 1): even rows, columns 2x + dx. */
  ghost function QuarterPaint(src: Plane, dx: int, w: nat, h: nat): Paint {
    (x, y) => if InFrame(x, y, w / 2, h / 2) then Some(At(src, 2 * x + dx, 2 * y)) else None
  }

  /** Does auxiliary Y row y carry a U row (and not a V row)? */
  function CarriesU(y: nat): bool { y % 16 < 8 }

  /** The odd chroma row that auxiliary Y row y carries. */
  function CarriedRow(y: nat): nat {
    2 * (8 * (y / 16) + if CarriesU(y) then y % 16 else y % 16 - 8) + 1
  }

  /** The auxiliary Y row that carries odd row `pos` of U, or of V. */
  function AuxRow(isU: bool, pos: nat): nat {
    var k := pos / 2;
    16 * (k / 8) + k % 8 + if isU then 0 else 8
  }

  /** B4, B5: odd U and V rows in alternating 8-line strips. */
  ghost function StripPaint(u: Plane, v: Plane, w: nat, h: nat): Paint {
    (x, y) => if InFrame(x, y, w, PaddedAuxHeight(h)) && CarriedRow(y) < h
              then Some(At(if CarriesU(y) then u else v, x, CarriedRow(y))) else None
  }

  /** Luma pass, chroma planes: each main sample over its 2x2 block. */
  ghost function BlockPaint(src: Plane, w: nat, h: nat): Paint {
    (x, y) => if InFrame(x, y, w, h) then Some(At(src, x / 2, y / 2)) else None
  }

  /** Chroma pass, first half: odd rows from the auxiliary Y plane. */
  ghost function OddRowPaint(auxY: Plane, isU: bool, w: nat, h: nat): Paint {
    (x, y) => if InFrame(x, y, w, h) && y % 2 == 1 then Some(At(auxY, x, AuxRow(isU, y))) else None
  }

  /** Chroma pass, second half: odd columns of even rows. */
  ghost function OddColumnPaint(aux: Plane, w: nat, h: nat): Paint {
    (x, y) => if InFrame(x, y, w, h) && y % 2 == 0 && x % 2 == 1 then Some(At(aux, x / 2, y / 2)) else None
  }

  /** Both halves of the chroma pass on one chroma plane. */
  ghost function ChromaPass(dst: Plane, auxY: Plane, aux: Plane, isU: bool, w: nat, h: nat): Plane {
    Painted(Painted(dst, OddRowPaint(auxY, isU, w, h)), OddColumnPaint(aux, w, h))
  }

  // ---------------------------------------------------------------------------
  // The strip layout
  // ---------------------------------------------------------------------------

  /** The strip row of a chroma row number k = 8q + s, and back. */
  lemma StripRow(isU: bool, q: nat, s: nat)
    requires s < 8
    ensures AuxRow(isU, 2 * (8 * q + s) + 1) == 16 * q + s + if isU then 0 else 8
    ensures var y := 16 * q + s + if isU then 0 else 8;
            CarriesU(y) == isU && CarriedRow(y) == 2 * (8 * q + s) + 1
  {
    var y := 16 * q + s + if isU then 0 else 8;
    assert y / 16 == q && y % 16 == s + if isU then 0 else 8;
    var k := 8 * q + s;
    assert (2 * k + 1) / 2 == k && k / 8 == q && k % 8 == s;
  }

  /** Every odd U row and every odd V row has exactly one auxiliary Y row, inside the padded
      height, and an auxiliary row carries exactly one of them. */
  lemma StripLayout(isU: bool, pos: nat, y: nat, h: nat)
    requires pos % 2 == 1
    ensures pos < h ==> AuxRow(isU, pos) < PaddedAuxHeight(h)
    ensures y == AuxRow(isU, pos) <==> CarriesU(y) == isU && CarriedRow(y) == pos
  {
    var k := pos / 2;
    StripRow(isU, k / 8, k % 8);
    StripRow(CarriesU(y), y / 16, if CarriesU(y) then y % 16 else y % 16 - 8);
    assert pos == 2 * (8 * (k / 8) + k % 8) + 1;
  }

  // ---------------------------------------------------------------------------
  // The same on raw cells
  // ---------------------------------------------------------------------------

  /** Cell (x, y) of `dst` holds cell (sx, sy) of `src`; both are inside their buffers. */
  ghost predicate CellIs(dst: Plane, x: int, y: int, src: Plane, sx: int, sy: int) {
    var i, k := y * dst.stride + x, sy * src.stride + sx;
    0 <= i < |dst.data| && 0 <= k < |src.data| && dst.data[i] == src.data[k]
  }

  /** Cell i keeps its value unless its column and row are among the `written` ones. */
  ghost predicate KeptElsewhere(after: Plane, prior: Plane, written: (int, int) -> bool) {
    && after.stride == prior.stride && |after.data| == |prior.data|
    && forall i :: 0 <= i < |after.data| && (prior.stride == 0 || !written(i % prior.stride, i / prior.stride)) ==>
         after.data[i] == prior.data[i]
  }

  /** Row y of the frame is row y of the source. */
  ghost predicate CopiedCells(after: Plane, prior: Plane, src: Plane, w: nat, h: nat) {
    && (forall x, y :: InFrame(x, y, w, h) ==> CellIs(after, x, y, src, x, y))
    && KeptElsewhere(after, prior, (x, y) => x < w && y < h)
  }

  /** Cell (x, y) of the quarter is cell (2x + dx, 2y) of the source. */
  ghost predicate QuarterCells(after: Plane, prior: Plane, src: Plane, dx: int, w: nat, h: nat) {
    && (forall x, y :: InFrame(x, y, w / 2, h / 2) ==> CellIs(after, x, y, src, 2 * x + dx, 2 * y))
    && KeptElsewhere(after, prior, (x, y) => x < w / 2 && y < h / 2)
  }

  /** Column x of the s-th odd row of the q-th block of 16 frame rows. */
  ghost predicate OddSlot(x: int, q: int, s: int, w: nat, h: nat) {
    0 <= x < w && 0 <= q && 0 <= s < 8 && 16 * q + 2 * s + 1 < h
  }

  /** Odd frame row 16q + 2s + 1 is in row 16q + s for U and in row 16q + 8 + s for V. */
  ghost predicate StripCells(after: Plane, prior: Plane, u: Plane, v: Plane, w: nat, h: nat) {
    && (forall x, q, s :: OddSlot(x, q, s, w, h) ==>
          && CellIs(after, x, 16 * q + s, u, x, 16 * q + 2 * s + 1)
          && CellIs(after, x, 16 * q + 8 + s, v, x, 16 * q + 2 * s + 1))
    && KeptElsewhere(after, prior, (x, y) => x < w && 16 * (y / 16) + 2 * (y % 8) + 1 < h)
  }

  /** Cell (x, y) is cell (x / 2, y / 2) of the source. */
  ghost predicate BlockCells(after: Plane, prior: Plane, src: Plane, w: nat, h: nat) {
    && (forall x, y :: InFrame(x, y, w, h) ==> CellIs(after, x, y, src, x / 2, y / 2))
    && KeptElsewhere(after, prior, (x, y) => x < w && y < h)
  }

  /** Odd rows come from the strips that begin at row `first` of each block of 16, odd columns of
      even rows from the quarter plane, and even columns of even rows stay. */
  ghost predicate ChromaCells(after: Plane, prior: Plane, auxY: Plane, aux: Plane, first: int, w: nat, h: nat) {
    && (forall x, q, s :: OddSlot(x, q, s, w, h) ==> CellIs(after, x, 16 * q + 2 * s + 1, auxY, x, 16 * q + first + s))
    && (forall x, y :: InFrame(x, y, w / 2, h / 2) ==> CellIs(after, 2 * x + 1, 2 * y, aux, x, y))
    && KeptElsewhere(after, prior, (x, y) => x < w && y < h && (y % 2 == 1 || x % 2 == 1))
  }

  /** From the sample at a place to the cells themselves. */
  lemma CellOfPaint(p: Plane, g: Paint, x: nat, y: nat, w: nat, rows: nat, src: Plane, sx: nat, sy: nat, sw: nat, srows: nat)
    requires PlaneFits(p, w, rows) && InFrame(x, y, w, rows) && PlaneFits(src, sw, srows) && InFrame(sx, sy, sw, srows)
    requires g(x, y) == Some(At(src, sx, sy))
    ensures CellIs(Painted(p, g), x, y, src, sx, sy)
  {
    RowInBounds(|p.data|, p.stride, w, rows, y);
    RowInBounds(|src.data|, src.stride, sw, srows, sy);
    AtPainted(p, g, x, y, w, rows);
  }

  lemma PaintKeeps(p: Plane, g: Paint, written: (int, int) -> bool)
    requires forall x, y :: x >= 0 && y >= 0 && g(x, y).Some? ==> written(x, y)
    ensures KeptElsewhere(Painted(p, g), p, written)
  {
    forall i | 0 <= i < |p.data| && (p.stride == 0 || !written(i % p.stride, i / p.stride))
      ensures Painted(p, g).data[i] == p.data[i]
    {
      if p.stride > 0 {
        QuotientNat(i, p.stride);
      }
    }
  }

  lemma QuotientNat(i: nat, s: nat)
    requires s > 0
    ensures i / s >= 0 && i % s >= 0
  {
  }

  lemma CopyOnCells(p: Plane, src: Plane, w: nat, h: nat)
    requires PlaneFits(p, w, h) && PlaneFits(src, w, h)
    ensures CopiedCells(Painted(p, CopyPaint(src, w, h)), p, src, w, h)
  {
    forall x, y | InFrame(x, y, w, h)
      ensures CellIs(Painted(p, CopyPaint(src, w, h)), x, y, src, x, y)
    {
      CellOfPaint(p, CopyPaint(src, w, h), x, y, w, h, src, x, y, w, h);
    }
    PaintKeeps(p, CopyPaint(src, w, h), (x, y) => x < w && y < h);
  }

  lemma QuarterOnCells(p: Plane, src: Plane, dx: nat, w: nat, h: nat)
    requires w % 2 == 0 && h % 2 == 0 && dx <= 1 && PlaneFits(p, w / 2, h / 2) && PlaneFits(src, w, h)
    ensures QuarterCells(Painted(p, QuarterPaint(src, dx, w, h)), p, src, dx, w, h)
  {
    forall x, y | InFrame(x, y, w / 2, h / 2)
      ensures CellIs(Painted(p, QuarterPaint(src, dx, w, h)), x, y, src, 2 * x + dx, 2 * y)
    {
      CellOfPaint(p, QuarterPaint(src, dx, w, h), x, y, w / 2, h / 2, src, 2 * x + dx, 2 * y, w, h);
    }
    PaintKeeps(p, QuarterPaint(src, dx, w, h), (x, y) => x < w / 2 && y < h / 2);
  }

  lemma StripOnCells(p: Plane, u: Plane, v: Plane, w: nat, h: nat)
    requires PlaneFits(p, w, PaddedAuxHeight(h)) && PlaneFits(u, w, h) && PlaneFits(v, w, h)
    ensures StripCells(Painted(p, StripPaint(u, v, w, h)), p, u, v, w, h)
  {
    var g := StripPaint(u, v, w, h);
    forall x, q, s | OddSlot(x, q, s, w, h)
      ensures CellIs(Painted(p, g), x, 16 * q + s, u, x, 16 * q + 2 * s + 1)
      ensures CellIs(Painted(p, g), x, 16 * q + 8 + s, v, x, 16 * q + 2 * s + 1)
    {
      StripSlot(q, s, h);
      CellOfPaint(p, g, x, 16 * q + s, w, PaddedAuxHeight(h), u, x, 16 * q + 2 * s + 1, w, h);
      CellOfPaint(p, g, x, 16 * q + 8 + s, w, PaddedAuxHeight(h), v, x, 16 * q + 2 * s + 1, w, h);
    }
    forall x, y | x >= 0 && y >= 0 && g(x, y).Some?
      ensures x < w && 16 * (y / 16) + 2 * (y % 8) + 1 < h
    {
      SlotOfRow(y);
    }
    PaintKeeps(p, g, (x, y) => x < w && 16 * (y / 16) + 2 * (y % 8) + 1 < h);
  }

  lemma StripSlot(q: nat, s: nat, h: nat)
    requires s < 8 && 16 * q + 2 * s + 1 < h
    ensures CarriesU(16 * q + s) && CarriedRow(16 * q + s) == 16 * q + 2 * s + 1
    ensures !CarriesU(16 * q + 8 + s) && CarriedRow(16 * q + 8 + s) == 16 * q + 2 * s + 1
    ensures AuxRow(true, 16 * q + 2 * s + 1) == 16 * q + s && AuxRow(false, 16 * q + 2 * s + 1) == 16 * q + 8 + s
    ensures 16 * q + 8 + s < PaddedAuxHeight(h)
  {
    var pos := 2 * (8 * q + s) + 1;
    assert pos == 16 * q + 2 * s + 1;
    StripRow(true, q, s);
    StripRow(false, q, s);
    StripSlotBelow(pos, 16 * q + 8 + s, h);
  }

  lemma StripSlotBelow(pos: nat, y: nat, h: nat)
    requires pos < h && pos % 2 == 1 && y == AuxRow(false, pos)
    ensures y < PaddedAuxHeight(h)
  {
    StripLayout(false, pos, y, h);
  }

  lemma SlotOfRow(y: nat)
    ensures CarriedRow(y) == 16 * (y / 16) + 2 * (y % 8) + 1
  {
    assert y % 8 == if y % 16 < 8 then y % 16 else y % 16 - 8;
  }

  lemma BlockOnCells(p: Plane, src: Plane, w: nat, h: nat)
    requires w % 2 == 0 && h % 2 == 0 && PlaneFits(p, w, h) && PlaneFits(src, w / 2, h / 2)
    ensures BlockCells(Painted(p, BlockPaint(src, w, h)), p, src, w, h)
  {
    forall x, y | InFrame(x, y, w, h)
      ensures CellIs(Painted(p, BlockPaint(src, w, h)), x, y, src, x / 2, y / 2)
    {
      CellOfPaint(p, BlockPaint(src, w, h), x, y, w, h, src, x / 2, y / 2, w / 2, h / 2);
    }
    PaintKeeps(p, BlockPaint(src, w, h), (x, y) => x < w && y < h);
  }

  lemma ChromaOddCell(p: Plane, auxY: Plane, aux: Plane, isU: bool, w: nat, h: nat, x: int, q: int, s: int)
    requires PlaneFits(p, w, h) && PlaneFits(auxY, w, PaddedAuxHeight(h)) && OddSlot(x, q, s, w, h)
    ensures CellIs(ChromaPass(p, auxY, aux, isU, w, h), x, 16 * q + 2 * s + 1, auxY, x, 16 * q + (if isU then 0 else 8) + s)
  {
    StripSlot(q, s, h);
    var y, first := 16 * q + 2 * s + 1, Painted(p, OddRowPaint(auxY, isU, w, h));
    assert y % 2 == 1;
    CellOfPaint(p, OddRowPaint(auxY, isU, w, h), x, y, w, h, auxY, x, AuxRow(isU, y), w, PaddedAuxHeight(h));
    RowInBounds(|p.data|, p.stride, w, h, y);
    AtPainted(first, OddColumnPaint(aux, w, h), x, y, w, h);
  }

  lemma ChromaEvenCell(p: Plane, auxY: Plane, aux: Plane, isU: bool, w: nat, h: nat, x: int, y: int)
    requires w % 2 == 0 && h % 2 == 0 && PlaneFits(p, w, h) && PlaneFits(aux, w / 2, h / 2) && InFrame(x, y, w / 2, h / 2)
    ensures CellIs(ChromaPass(p, auxY, aux, isU, w, h), 2 * x + 1, 2 * y, aux, x, y)
  {
    assert (2 * x + 1) / 2 == x && 2 * y / 2 == y;
    CellOfPaint(Painted(p, OddRowPaint(auxY, isU, w, h)), OddColumnPaint(aux, w, h), 2 * x + 1, 2 * y, w, h, aux, x, y, w / 2, h / 2);
  }

  lemma ChromaKeeps(p: Plane, auxY: Plane, aux: Plane, isU: bool, w: nat, h: nat)
    ensures KeptElsewhere(ChromaPass(p, auxY, aux, isU, w, h), p, (x, y) => x < w && y < h && (y % 2 == 1 || x % 2 == 1))
  {
    var written := (x, y) => x < w && y < h && (y % 2 == 1 || x % 2 == 1);
    PaintKeeps(p, OddRowPaint(auxY, isU, w, h), written);
    PaintKeeps(Painted(p, OddRowPaint(auxY, isU, w, h)), OddColumnPaint(aux, w, h), written);
  }

  lemma ChromaOnCells(p: Plane, auxY: Plane, aux: Plane, isU: bool, w: nat, h: nat)
    requires w % 2 == 0 && h % 2 == 0 && PlaneFits(p, w, h) && PlaneFits(auxY, w, PaddedAuxHeight(h)) && PlaneFits(aux, w / 2, h / 2)
    ensures ChromaCells(ChromaPass(p, auxY, aux, isU, w, h), p, auxY, aux, if isU then 0 else 8, w, h)
  {
    var after := ChromaPass(p, auxY, aux, isU, w, h);
    forall x, q, s | OddSlot(x, q, s, w, h)
      ensures CellIs(after, x, 16 * q + 2 * s + 1, auxY, x, 16 * q + (if isU then 0 else 8) + s)
    {
      ChromaOddCell(p, auxY, aux, isU, w, h, x, q, s);
    }
    forall x, y | InFrame(x, y, w / 2, h / 2)
      ensures CellIs(after, 2 * x + 1, 2 * y, aux, x, y)
    {
      ChromaEvenCell(p, auxY, aux, isU, w, h, x, y);
    }
    ChromaKeeps(p, auxY, aux, isU, w, h);
  }

  // ---------------------------------------------------------------------------
  // Encoder side
  // ---------------------------------------------------------------------------

  /** One `copy_from_slice` of a row. */
  method CopyRow(src: Plane, pos: nat, dst: PlaneMut, y: nat, w: nat)
    requires 0 <= pos * src.stride && pos * src.stride + w <= |src.data|
    requires 0 <= y * dst.stride && y * dst.stride + w <= dst.buf.Length
    modifies dst.buf
    ensures RowCopied(src, pos, old(dst.View()), dst.View(), y, w)
  {
    var from, to := pos * src.stride, y * dst.stride;
    forall k | 0 <= k < w {
      dst.buf[to + k] := src.data[from + k];
    }
    forall i | to <= i < to + w
      ensures dst.buf[i] == src.data[from + (i - to)]
    {
      var k := i - to;
      assert dst.buf[to + k] == src.data[from + k];
    }
  }

  /** `after` is `before` with w samples of row `pos` of `src` in row y. */
  ghost predicate RowCopied(src: Plane, pos: nat, before: Plane, after: Plane, y: nat, w: nat)
    requires 0 <= pos * src.stride && pos * src.stride + w <= |src.data|
  {
    && after.stride == before.stride && |after.data| == |before.data|
    && forall i :: 0 <= i < |after.data| ==>
         after.data[i] == if y * after.stride <= i < y * after.stride + w
                          then src.data[pos * src.stride + (i - y * after.stride)] else before.data[i]
  }

  /** Copying row `pos` of `src` into `row` paints the rows from y to `row`, when that is all
      that `g` has there. */
  lemma CopiedRow(src: Plane, pos: nat, prior: Plane, before: Plane, after: Plane, g: Paint, y: nat, row: nat, w: nat)
    requires 0 <= pos * src.stride && pos * src.stride + w <= |src.data|
    requires y <= row <= y + 1 && w <= prior.stride
    requires before == Painted(prior, Below(g, y))
    requires RowCopied(src, pos, before, after, row, w)
    requires forall x :: g(x, row) == if 0 <= x < w then Some(At(src, x, pos)) else None
    requires row != y ==> forall x :: g(x, y) == None
    ensures after == Painted(prior, Below(g, row + 1))
  {
    var s := prior.stride;
    assert (y + 1) * s == y * s + s && (row + 1) * s == row * s + s;
    forall i | 0 <= i < |after.data|
      ensures after.data[i] == if y * s <= i < (row + 1) * s then PaintedCell(before.data[i], s, g, i) else before.data[i]
    {
      if row * s <= i < (row + 1) * s {
        RowOf(i, s, row);
      } else if y * s <= i < (y + 1) * s {
        RowOf(i, s, y);
      }
    }
    assert y + (row + 1 - y) == row + 1;
    RowsStep(prior, before, after, g, y, row + 1 - y);
  }

  lemma SkippedRow(prior: Plane, before: Plane, g: Paint, y: nat)
    requires before == Painted(prior, Below(g, y)) && forall x :: g(x, y) == None
    ensures before == Painted(prior, Below(g, y + 1))
  {
    forall i | 0 <= i < |before.data| && y * prior.stride <= i < (y + 1) * prior.stride
      ensures PaintedCell(before.data[i], prior.stride, g, i) == before.data[i]
    {
      RowOf(i, prior.stride, y);
    }
    RowsStep(prior, before, before, g, y, 1);
  }

  /** B1. */
  method CopyPlane(src: Plane, dst: PlaneMut, w: nat, h: nat)
    requires PlaneFits(src, w, h) && Fits(dst.buf.Length, dst.stride, w, h)
    modifies dst.buf
    ensures dst.View() == Painted(old(dst.View()), CopyPaint(src, w, h))
    ensures CopiedCells(dst.View(), old(dst.View()), src, w, h)
  {
    CopyOnCells(dst.View(), src, w, h);
    ghost var prior, g := dst.View(), CopyPaint(src, w, h);
    assert dst.View() == Painted(prior, Below(g, 0));
    for y := 0 to h
      invariant dst.View() == Painted(prior, Below(g, y))
    {
      ghost var before := dst.View();
      RowInBounds(|src.data|, src.stride, w, h, y);
      RowInBounds(dst.buf.Length, dst.stride, w, h, y);
      CopyRow(src, y, dst, y, w);
      CopiedRow(src, y, prior, before, dst.View(), g, y, y, w);
    }
    assert dst.View() == Painted(prior, g);
  }

  /** B2, B3 (dx = 0), B6, B7 (dx = 1) for one chroma plane. */
  method TakeColumns(src: Plane, dst: PlaneMut, dx: nat, w: nat, h: nat)
    requires w % 2 == 0 && h % 2 == 0 && dx <= 1
    requires PlaneFits(src, w, h) && Fits(dst.buf.Length, dst.stride, w / 2, h / 2)
    modifies dst.buf
    ensures dst.View() == Painted(old(dst.View()), QuarterPaint(src, dx, w, h))
  {
    ghost var prior, g := dst.View(), QuarterPaint(src, dx, w, h);
    assert dst.View() == Painted(prior, Below(g, 0));
    for y := 0 to h / 2
      invariant dst.View() == Painted(prior, Below(g, y))
    {
      ghost var before := dst.View();
      RowInBounds(|src.data|, src.stride, w, h, 2 * y);
      RowInBounds(dst.buf.Length, dst.stride, w / 2, h / 2, y);
      TakeRow(src, 2 * y * src.stride, dst, y * dst.stride, dx, w);
      QuarterRow(src, prior, before, dst.View(), dx, w, h, y);
    }
    assert dst.View() == Painted(prior, g);
  }

  /** The inner loop of `TakeColumns`, over one row. */
  method TakeRow(src: Plane, from: nat, dst: PlaneMut, to: nat, dx: nat, w: nat)
    requires w % 2 == 0 && dx <= 1
    requires from + w <= |src.data| && to + w / 2 <= dst.buf.Length
    modifies dst.buf
    ensures forall i :: 0 <= i < dst.buf.Length ==>
      dst.buf[i] == if to <= i < to + w / 2 then src.data[from + 2 * (i - to) + dx] else old(dst.buf[i])
  {
    for x := 0 to w / 2
      invariant forall i :: 0 <= i < dst.buf.Length ==>
        dst.buf[i] == if to <= i < to + x then src.data[from + 2 * (i - to) + dx] else old(dst.buf[i])
    {
      dst.buf[to + x] := src.data[from + Min(2 * x + dx, w - 1)];
    }
  }

  lemma QuarterRow(src: Plane, prior: Plane, before: Plane, after: Plane, dx: nat, w: nat, h: nat, y: nat)
    requires w % 2 == 0 && h % 2 == 0 && dx <= 1 && y < h / 2
    requires PlaneFits(src, w, h) && PlaneFits(prior, w / 2, h / 2)
    requires before == Painted(prior, Below(QuarterPaint(src, dx, w, h), y))
    requires after.stride == prior.stride && |after.data| == |prior.data|
    requires 0 <= 2 * y * src.stride && 2 * y * src.stride + w <= |src.data|
    requires forall i :: 0 <= i < |prior.data| ==>
      after.data[i] == if y * prior.stride <= i < y * prior.stride + w / 2
                       then src.data[2 * y * src.stride + 2 * (i - y * prior.stride) + dx] else before.data[i]
    ensures after == Painted(prior, Below(QuarterPaint(src, dx, w, h), y + 1))
  {
    var g := QuarterPaint(src, dx, w, h);
    RowInBounds(|prior.data|, prior.stride, w / 2, h / 2, y);
    forall i | 0 <= i < |prior.data|
      ensures after.data[i] == if y * prior.stride <= i < (y + 1) * prior.stride
                then PaintedCell(before.data[i], prior.stride, g, i) else before.data[i]
    {
      if y * prior.stride <= i < (y + 1) * prior.stride {
        RowOf(i, prior.stride, y);
      }
    }
    RowsStep(prior, before, after, g, y, 1);
  }

  /** The running counters `u_y` and `v_y` after y auxiliary rows. */
  ghost function Counter(isU: bool, y: nat): nat {
    if y == 0 then 0 else Counter(isU, y - 1) + if CarriesU(y - 1) == isU then 1 else 0
  }

  /** The counters agree with the closed form of the strip layout. */
  lemma {:induction false} CounterRow(isU: bool, y: nat)
    ensures CarriesU(y) == isU ==> 2 * Counter(isU, y) + 1 == CarriedRow(y)
    ensures Counter(isU, y) == 8 * (y / 16) + if isU then Min(y % 16, 8) else Max(y % 16 - 8, 0)
  {
    if y > 0 {
      CounterRow(isU, y - 1);
      var q, r := (y - 1) / 16, (y - 1) % 16;
      if r == 15 {
        assert y == 16 * (q + 1);
      } else {
        assert y / 16 == q && y % 16 == r + 1;
      }
    }
  }

  /** B4, B5: the odd rows of U and V into the auxiliary Y plane. */
  method PackStrips(u: Plane, v: Plane, auxY: PlaneMut, w: nat, h: nat)
    requires PlaneFits(u, w, h) && PlaneFits(v, w, h)
    requires Fits(auxY.buf.Length, auxY.stride, w, PaddedAuxHeight(h))
    modifies auxY.buf
    ensures auxY.View() == Painted(old(auxY.View()), StripPaint(u, v, w, h))
  {
    ghost var prior, g := auxY.View(), StripPaint(u, v, w, h);
    var padHeight := PaddedAuxHeight(h);
    var uY, vY := 0, 0;
    assert auxY.View() == Painted(prior, Below(g, 0));
    for y := 0 to padHeight
      invariant uY == Counter(true, y) && vY == Counter(false, y)
      invariant auxY.View() == Painted(prior, Below(g, y))
    {
      RowInBounds(auxY.buf.Length, auxY.stride, w, padHeight, y);
      CounterRow(CarriesU(y), y);
      if y % 16 < 8 {
        PackRow(u, 2 * uY + 1, auxY, y, w, h, prior, g);
        uY := uY + 1;
      } else {
        PackRow(v, 2 * vY + 1, auxY, y, w, h, prior, g);
        vY := vY + 1;
      }
    }
    assert auxY.View() == Painted(prior, g);
  }

  /** One auxiliary row: odd source row `pos`, skipped when it is past the frame. */
  method PackRow(src: Plane, pos: nat, auxY: PlaneMut, y: nat, w: nat, h: nat, ghost prior: Plane, ghost g: Paint)
    requires PlaneFits(src, w, h) && 0 <= y * auxY.stride && y * auxY.stride + w <= auxY.buf.Length
    requires w <= auxY.stride && auxY.View() == Painted(prior, Below(g, y))
    requires forall x :: g(x, y) == if pos < h && 0 <= x < w then Some(At(src, x, pos)) else None
    modifies auxY.buf
    ensures auxY.View() == Painted(prior, Below(g, y + 1))
  {
    ghost var before := auxY.View();
    if pos >= h {
      SkippedRow(prior, before, g, y);
    } else {
      RowInBounds(|src.data|, src.stride, w, h, pos);
      CopyRow(src, pos, auxY, y, w);
      CopiedRow(src, pos, prior, before, auxY.View(), g, y, y, w);
    }
  }

  /** The split: main and auxiliary views of one frame. */
  method SplitYuv444(srcY: Plane, srcU: Plane, srcV: Plane,
                     mainY: PlaneMut, mainU: PlaneMut, mainV: PlaneMut,
                     auxY: PlaneMut, auxU: PlaneMut, auxV: PlaneMut, w: nat, h: nat)
    requires w % 2 == 0 && h % 2 == 0
    requires PlaneFits(srcY, w, h) && PlaneFits(srcU, w, h) && PlaneFits(srcV, w, h)
    requires Fits(mainY.buf.Length, mainY.stride, w, h)
    requires Fits(mainU.buf.Length, mainU.stride, w / 2, h / 2) && Fits(mainV.buf.Length, mainV.stride, w / 2, h / 2)
    requires Fits(auxY.buf.Length, auxY.stride, w, PaddedAuxHeight(h))
    requires Fits(auxU.buf.Length, auxU.stride, w / 2, h / 2) && Fits(auxV.buf.Length, auxV.stride, w / 2, h / 2)
    requires mainY.buf != mainU.buf && mainY.buf != mainV.buf && mainU.buf != mainV.buf
    requires auxY.buf != auxU.buf && auxY.buf != auxV.buf && auxU.buf != auxV.buf
    requires {mainY.buf, mainU.buf, mainV.buf} !! {auxY.buf, auxU.buf, auxV.buf}
    modifies mainY.buf, mainU.buf, mainV.buf, auxY.buf, auxU.buf, auxV.buf
    ensures mainY.View() == Painted(old(mainY.View()), CopyPaint(srcY, w, h))
    ensures mainU.View() == Painted(old(mainU.View()), QuarterPaint(srcU, 0, w, h))
    ensures mainV.View() == Painted(old(mainV.View()), QuarterPaint(srcV, 0, w, h))
    ensures auxY.View() == Painted(old(auxY.View()), StripPaint(srcU, srcV, w, h))
    ensures auxU.View() == Painted(old(auxU.View()), QuarterPaint(srcU, 1, w, h))
    ensures auxV.View() == Painted(old(auxV.View()), QuarterPaint(srcV, 1, w, h))
    ensures CopiedCells(mainY.View(), old(mainY.View()), srcY, w, h)
    ensures QuarterCells(mainU.View(), old(mainU.View()), srcU, 0, w, h) && QuarterCells(mainV.View(), old(mainV.View()), srcV, 0, w, h)
    ensures StripCells(auxY.View(), old(auxY.View()), srcU, srcV, w, h)
    ensures QuarterCells(auxU.View(), old(auxU.View()), srcU, 1, w, h) && QuarterCells(auxV.View(), old(auxV.View()), srcV, 1, w, h)
  {
    CopyOnCells(mainY.View(), srcY, w, h);
    QuarterOnCells(mainU.View(), srcU, 0, w, h);
    QuarterOnCells(mainV.View(), srcV, 0, w, h);
    StripOnCells(auxY.View(), srcU, srcV, w, h);
    QuarterOnCells(auxU.View(), srcU, 1, w, h);
    QuarterOnCells(auxV.View(), srcV, 1, w, h);
    CopyPlane(srcY, mainY, w, h);
    TakeColumns(srcU, mainU, 0, w, h);
    TakeColumns(srcV, mainV, 0, w, h);
    PackStrips(srcU, srcV, auxY, w, h);
    TakeColumns(srcU, auxU, 1, w, h);
    TakeColumns(srcV, auxV, 1, w, h);
  }

  // ---------------------------------------------------------------------------
  // Decoder side
  // ---------------------------------------------------------------------------

  /** Offsets of two rows of a plane; no bottom row when it falls outside the buffer. */
  function SplitTwoRows(len: nat, stride: nat, top: nat, bot: nat, rowLen: nat): (nat, Option<nat>) {
    (top * stride, if bot * stride + rowLen > len then None else Some(bot * stride))
  }

  /** Two consecutive rows of a plane that fits are both there. */
  lemma TwoRowsFit(len: nat, stride: nat, top: nat, w: nat, h: nat)
    requires Fits(len, stride, w, h) && top + 1 < h
    ensures SplitTwoRows(len, stride, top, top + 1, w) == (top * stride, Some(top * stride + stride))
    ensures top * stride + stride + w <= len
  {
    RowInBounds(len, stride, w, h, top);
    RowInBounds(len, stride, w, h, top + 1);
  }

  /** The inner loop of the luma pass: each main sample into its four positions. */
  method SpreadRow(src: Plane, from: nat, dst: PlaneMut, rows: (nat, Option<nat>), w: nat)
    requires w % 2 == 0 && from + w / 2 <= |src.data| && rows.0 + w <= dst.buf.Length
    requires rows.1.Some? && rows.0 + w <= rows.1.value && rows.1.value + w <= dst.buf.Length
    modifies dst.buf
    ensures RowsSpread(src, from, old(dst.View()), dst.View(), rows.0, rows.1.value, w)
  {
    for x := 0 to w / 2
      invariant forall i :: 0 <= i < dst.buf.Length ==>
        dst.buf[i] == if rows.0 <= i < rows.0 + 2 * x then src.data[from + (i - rows.0) / 2]
                      else if rows.1.value <= i < rows.1.value + 2 * x then src.data[from + (i - rows.1.value) / 2]
                      else old(dst.buf[i])
    {
      var sample := src.data[from + x];
      dst.buf[rows.0 + 2 * x] := sample;
      if 2 * x + 1 < w {
        dst.buf[rows.0 + 2 * x + 1] := sample;
      }
      if rows.1.Some? {
        dst.buf[rows.1.value + 2 * x] := sample;
        if 2 * x + 1 < w {
          dst.buf[rows.1.value + 2 * x + 1] := sample;
        }
      }
    }
  }

  /** `after` is `before` with w / 2 samples of `src` doubled into the rows at `top` and `bot`. */
  ghost predicate RowsSpread(src: Plane, from: nat, before: Plane, after: Plane, top: nat, bot: nat, w: nat)
    requires w % 2 == 0 && from + w / 2 <= |src.data|
  {
    && after.stride == before.stride && |after.data| == |before.data|
    && forall i :: 0 <= i < |after.data| ==>
         after.data[i] == if top <= i < top + w then src.data[from + (i - top) / 2]
                          else if bot <= i < bot + w then src.data[from + (i - bot) / 2]
                          else before.data[i]
  }

  lemma SpreadCell(src: Plane, from: nat, b: byte, s: nat, w: nat, h: nat, row: nat, to: nat, i: nat)
    requires w % 2 == 0 && row < h && to == row * s && to <= i < to + s
    requires from == row / 2 * src.stride && from + w / 2 <= |src.data|
    ensures PaintedCell(b, s, BlockPaint(src, w, h), i) == if i < to + w then src.data[from + (i - to) / 2] else b
  {
    RowOf(i, s, row);
  }

  lemma SpreadRows(src: Plane, from: nat, prior: Plane, before: Plane, after: Plane, w: nat, h: nat, row: nat, to: nat)
    requires w % 2 == 0 && row % 2 == 0 && row + 1 < h && w <= prior.stride && to == row * prior.stride
    requires before == Painted(prior, Below(BlockPaint(src, w, h), row))
    requires from == row / 2 * src.stride && from + w / 2 <= |src.data|
    requires RowsSpread(src, from, before, after, to, to + prior.stride, w)
    ensures after == Painted(prior, Below(BlockPaint(src, w, h), row + 2))
  {
    var s, g := prior.stride, BlockPaint(src, w, h);
    assert (row + 1) * s == to + s && (row + 2) * s == to + 2 * s && (row + 1) / 2 == row / 2;
    forall i | 0 <= i < |prior.data|
      ensures after.data[i] == if row * s <= i < (row + 2) * s then PaintedCell(before.data[i], s, g, i) else before.data[i]
    {
      if to <= i < to + s {
        SpreadCell(src, from, before.data[i], s, w, h, row, to, i);
      } else if to + s <= i < to + 2 * s {
        SpreadCell(src, from, before.data[i], s, w, h, row + 1, to + s, i);
      }
    }
    RowsStep(prior, before, after, g, row, 2);
  }

  /** The luma pass on one chroma plane. */
  method SpreadChroma(src: Plane, dst: PlaneMut, w: nat, h: nat)
    requires w % 2 == 0 && h % 2 == 0
    requires PlaneFits(src, w / 2, h / 2) && Fits(dst.buf.Length, dst.stride, w, h)
    modifies dst.buf
    ensures dst.View() == Painted(old(dst.View()), BlockPaint(src, w, h))
  {
    ghost var prior, g := dst.View(), BlockPaint(src, w, h);
    assert dst.View() == Painted(prior, Below(g, 0));
    for y := 0 to h / 2
      invariant dst.View() == Painted(prior, Below(g, 2 * y))
    {
      SpreadPair(src, dst, w, h, y, prior);
    }
    assert dst.View() == Painted(prior, g);
  }

  /** One turn of the loop of `SpreadChroma`: two rows. */
  method SpreadPair(src: Plane, dst: PlaneMut, w: nat, h: nat, y: nat, ghost prior: Plane)
    requires w % 2 == 0 && h % 2 == 0 && y < h / 2
    requires PlaneFits(src, w / 2, h / 2) && Fits(dst.buf.Length, dst.stride, w, h)
    requires dst.View() == Painted(prior, Below(BlockPaint(src, w, h), 2 * y))
    modifies dst.buf
    ensures dst.View() == Painted(prior, Below(BlockPaint(src, w, h), 2 * y + 2))
  {
    ghost var before := dst.View();
    RowInBounds(|src.data|, src.stride, w / 2, h / 2, y);
    TwoRowsFit(dst.buf.Length, dst.stride, 2 * y, w, h);
    var rows := SplitTwoRows(dst.buf.Length, dst.stride, 2 * y, 2 * y + 1, w);
    var from := y * src.stride;
    assert 2 * y / 2 == y && from == 2 * y / 2 * src.stride;
    SpreadRow(src, from, dst, rows, w);
    SpreadRows(src, from, prior, before, dst.View(), w, h, 2 * y, rows.0);
  }

  /** The luma pass. */
  method CombineLuma(mainY: Plane, mainU: Plane, mainV: Plane,
                     dstY: PlaneMut, dstU: PlaneMut, dstV: PlaneMut, w: nat, h: nat)
    requires w % 2 == 0 && h % 2 == 0
    requires PlaneFits(mainY, w, h) && PlaneFits(mainU, w / 2, h / 2) && PlaneFits(mainV, w / 2, h / 2)
    requires Fits(dstY.buf.Length, dstY.stride, w, h)
    requires Fits(dstU.buf.Length, dstU.stride, w, h) && Fits(dstV.buf.Length, dstV.stride, w, h)
    requires dstY.buf != dstU.buf && dstY.buf != dstV.buf && dstU.buf != dstV.buf
    modifies dstY.buf, dstU.buf, dstV.buf
    ensures dstY.View() == Painted(old(dstY.View()), CopyPaint(mainY, w, h))
    ensures dstU.View() == Painted(old(dstU.View()), BlockPaint(mainU, w, h))
    ensures dstV.View() == Painted(old(dstV.View()), BlockPaint(mainV, w, h))
    ensures CopiedCells(dstY.View(), old(dstY.View()), mainY, w, h)
    ensures BlockCells(dstU.View(), old(dstU.View()), mainU, w, h) && BlockCells(dstV.View(), old(dstV.View()), mainV, w, h)
  {
    BlockOnCells(dstU.View(), mainU, w, h);
    BlockOnCells(dstV.View(), mainV, w, h);
    CopyPlane(mainY, dstY, w, h);
    SpreadChroma(mainU, dstU, w, h);
    SpreadChroma(mainV, dstV, w, h);
  }

  /** One turn of the loop of `UnpackStrips`. */
  method UnpackAuxRow(auxY: Plane, y: nat, dstU: PlaneMut, dstV: PlaneMut, uY: nat, vY: nat, w: nat, h: nat,
                      ghost priorU: Plane, ghost priorV: Plane) returns (uNext: nat, vNext: nat)
    requires PlaneFits(auxY, w, PaddedAuxHeight(h)) && y < PaddedAuxHeight(h) && dstU.buf != dstV.buf
    requires Fits(dstU.buf.Length, dstU.stride, w, h) && Fits(dstV.buf.Length, dstV.stride, w, h)
    requires uY == Counter(true, y) && vY == Counter(false, y)
    requires dstU.View() == Painted(priorU, Below(OddRowPaint(auxY, true, w, h), 2 * uY))
    requires dstV.View() == Painted(priorV, Below(OddRowPaint(auxY, false, w, h), 2 * vY))
    modifies dstU.buf, dstV.buf
    ensures uNext == Counter(true, y + 1) && vNext == Counter(false, y + 1)
    ensures dstU.View() == Painted(priorU, Below(OddRowPaint(auxY, true, w, h), 2 * uNext))
    ensures dstV.View() == Painted(priorV, Below(OddRowPaint(auxY, false, w, h), 2 * vNext))
  {
    uNext, vNext := uY, vY;
    RowInBounds(|auxY.data|, auxY.stride, w, PaddedAuxHeight(h), y);
    StripOfCounter(CarriesU(y), y);
    if y % 16 < 8 {
      OddRowSource(auxY, true, y, 2 * uY, 2 * uY + 1, w, h);
      UnpackRow(auxY, y, dstU, 2 * uY + 1, w, h, 2 * uY, priorU, OddRowPaint(auxY, true, w, h));
      uNext := uY + 1;
    } else {
      OddRowSource(auxY, false, y, 2 * vY, 2 * vY + 1, w, h);
      UnpackRow(auxY, y, dstV, 2 * vY + 1, w, h, 2 * vY, priorV, OddRowPaint(auxY, false, w, h));
      vNext := vY + 1;
    }
  }

  /** Chroma pass, B4 and B5: the odd rows back out of the auxiliary Y plane. */
  method UnpackStrips(auxY: Plane, dstU: PlaneMut, dstV: PlaneMut, w: nat, h: nat)
    requires PlaneFits(auxY, w, PaddedAuxHeight(h)) && dstU.buf != dstV.buf
    requires Fits(dstU.buf.Length, dstU.stride, w, h) && Fits(dstV.buf.Length, dstV.stride, w, h)
    modifies dstU.buf, dstV.buf
    ensures dstU.View() == Painted(old(dstU.View()), OddRowPaint(auxY, true, w, h))
    ensures dstV.View() == Painted(old(dstV.View()), OddRowPaint(auxY, false, w, h))
  {
    ghost var priorU, gU := dstU.View(), OddRowPaint(auxY, true, w, h);
    ghost var priorV, gV := dstV.View(), OddRowPaint(auxY, false, w, h);
    var padHeight := PaddedAuxHeight(h);
    var uY, vY := 0, 0;
    assert dstU.View() == Painted(priorU, Below(gU, 0));
    assert dstV.View() == Painted(priorV, Below(gV, 0));
    for y := 0 to padHeight
      invariant uY == Counter(true, y) && vY == Counter(false, y)
      invariant dstU.View() == Painted(priorU, Below(gU, 2 * uY))
      invariant dstV.View() == Painted(priorV, Below(gV, 2 * vY))
    {
      uY, vY := UnpackAuxRow(auxY, y, dstU, dstV, uY, vY, w, h, priorU, priorV);
    }
    CountersPassFrame(true, h);
    CountersPassFrame(false, h);
    OddRowsDone(priorU, auxY, true, w, h, 2 * uY);
    OddRowsDone(priorV, auxY, false, w, h, 2 * vY);
  }

  /** One auxiliary row into the odd row `pos`, skipped when that is past the frame. */
  method UnpackRow(auxY: Plane, y: nat, dst: PlaneMut, pos: nat, w: nat, h: nat,
                   ghost top: nat, ghost prior: Plane, ghost g: Paint)
    requires 0 <= y * auxY.stride && y * auxY.stride + w <= |auxY.data|
    requires Fits(dst.buf.Length, dst.stride, w, h) && pos == top + 1
    requires dst.View() == Painted(prior, Below(g, top)) && RowSource(g, auxY, y, top, pos, w, h)
    modifies dst.buf
    ensures dst.View() == Painted(prior, Below(g, pos + 1))
  {
    ghost var before := dst.View();
    if pos >= h {
      SkippedRow(prior, before, g, top);
      SkippedRow(prior, before, g, pos);
    } else {
      RowInBounds(dst.buf.Length, dst.stride, w, h, pos);
      CopyRow(auxY, y, dst, pos, w);
      CopiedRow(auxY, y, prior, before, dst.View(), g, top, pos, w);
    }
  }

  /** Auxiliary row y is the strip row of the odd row its counter points at. */
  lemma StripOfCounter(isU: bool, y: nat)
    requires CarriesU(y) == isU
    ensures AuxRow(isU, 2 * Counter(isU, y) + 1) == y
  {
    CounterRow(isU, y);
    StripLayout(isU, CarriedRow(y), y, y);
  }

  /** After all auxiliary rows both counters have passed the frame. */
  lemma CountersPassFrame(isU: bool, h: nat)
    ensures 2 * Counter(isU, PaddedAuxHeight(h)) >= h
  {
    CounterRow(isU, PaddedAuxHeight(h));
  }

  lemma OddRowsDone(prior: Plane, auxY: Plane, isU: bool, w: nat, h: nat, n: nat)
    requires h <= n
    ensures Painted(prior, Below(OddRowPaint(auxY, isU, w, h), n)) == Painted(prior, OddRowPaint(auxY, isU, w, h))
  {
  }

  /** Row `pos` of `g`, if in the frame, is row y of the auxiliary plane; row `top` is empty. */
  ghost predicate RowSource(g: Paint, auxY: Plane, y: nat, top: nat, pos: nat, w: nat, h: nat) {
    && (forall x :: g(x, top) == None)
    && forall x :: g(x, pos) == if pos < h && 0 <= x < w then Some(At(auxY, x, y)) else None
  }

  /** Where `OddRowPaint` gets row `pos` from. */
  lemma OddRowSource(auxY: Plane, isU: bool, y: nat, top: nat, pos: nat, w: nat, h: nat)
    requires top == 2 * Counter(isU, y) && pos == top + 1 && AuxRow(isU, pos) == y
    ensures RowSource(OddRowPaint(auxY, isU, w, h), auxY, y, top, pos, w, h)
  {
    assert top % 2 == 0 && pos % 2 == 1;
  }

  /** The inner loop of B6, B7 on the decoder side: odd columns of one row. */
  method FillRow(src: Plane, from: nat, dst: PlaneMut, to: nat, w: nat)
    requires w % 2 == 0 && from + w / 2 <= |src.data| && to + w <= dst.buf.Length
    modifies dst.buf
    ensures RowFilled(src, from, old(dst.View()), dst.View(), to, w)
  {
    for x := 0 to w / 2
      invariant forall i :: 0 <= i < dst.buf.Length ==>
        dst.buf[i] == if to <= i < to + 2 * x && (i - to) % 2 == 1 then src.data[from + (i - to) / 2] else old(dst.buf[i])
    {
      dst.buf[to + 2 * x + 1] := src.data[from + x];
    }
  }

  /** `after` is `before` with w / 2 samples of `src` in the odd columns of a row. */
  ghost predicate RowFilled(src: Plane, from: nat, before: Plane, after: Plane, to: nat, w: nat)
    requires w % 2 == 0 && from + w / 2 <= |src.data|
  {
    && after.stride == before.stride && |after.data| == |before.data|
    && forall i :: 0 <= i < |after.data| ==>
         after.data[i] == if to <= i < to + w && (i - to) % 2 == 1 then src.data[from + (i - to) / 2] else before.data[i]
  }

  lemma FilledCell(src: Plane, from: nat, b: byte, s: nat, w: nat, h: nat, row: nat, to: nat, i: nat)
    requires w % 2 == 0 && row < h && to == row * s && to <= i < to + s
    requires from == row / 2 * src.stride && from + w / 2 <= |src.data|
    ensures PaintedCell(b, s, OddColumnPaint(src, w, h), i)
         == if row % 2 == 0 && i < to + w && (i - to) % 2 == 1 then src.data[from + (i - to) / 2] else b
  {
    RowOf(i, s, row);
  }

  lemma FilledRow(src: Plane, from: nat, prior: Plane, before: Plane, after: Plane, w: nat, h: nat, row: nat, to: nat)
    requires w % 2 == 0 && row % 2 == 0 && row + 1 < h && w <= prior.stride && to == row * prior.stride
    requires before == Painted(prior, Below(OddColumnPaint(src, w, h), row))
    requires from == row / 2 * src.stride && from + w / 2 <= |src.data|
    requires RowFilled(src, from, before, after, to, w)
    ensures after == Painted(prior, Below(OddColumnPaint(src, w, h), row + 2))
  {
    var s, g := prior.stride, OddColumnPaint(src, w, h);
    assert (row + 1) * s == to + s && (row + 2) * s == to + 2 * s && (row + 1) / 2 == row / 2;
    forall i | 0 <= i < |prior.data|
      ensures after.data[i] == if row * s <= i < (row + 2) * s then PaintedCell(before.data[i], s, g, i) else before.data[i]
    {
      if to <= i < to + s {
        FilledCell(src, from, before.data[i], s, w, h, row, to, i);
      } else if to + s <= i < to + 2 * s {
        FilledCell(src, from, before.data[i], s, w, h, row + 1, to + s, i);
      }
    }
    RowsStep(prior, before, after, g, row, 2);
  }

  /** Chroma pass, B6 and B7: odd columns of the even rows of one chroma plane. */
  method FillColumns(src: Plane, dst: PlaneMut, w: nat, h: nat)
    requires w % 2 == 0 && h % 2 == 0
    requires PlaneFits(src, w / 2, h / 2) && Fits(dst.buf.Length, dst.stride, w, h)
    modifies dst.buf
    ensures dst.View() == Painted(old(dst.View()), OddColumnPaint(src, w, h))
  {
    ghost var prior, g := dst.View(), OddColumnPaint(src, w, h);
    assert dst.View() == Painted(prior, Below(g, 0));
    for y := 0 to h / 2
      invariant dst.View() == Painted(prior, Below(g, 2 * y))
    {
      FillPair(src, dst, w, h, y, prior);
    }
    assert dst.View() == Painted(prior, g);
  }

  /** One turn of the loop of `FillColumns`. */
  method FillPair(src: Plane, dst: PlaneMut, w: nat, h: nat, y: nat, ghost prior: Plane)
    requires w % 2 == 0 && h % 2 == 0 && y < h / 2
    requires PlaneFits(src, w / 2, h / 2) && Fits(dst.buf.Length, dst.stride, w, h)
    requires dst.View() == Painted(prior, Below(OddColumnPaint(src, w, h), 2 * y))
    modifies dst.buf
    ensures dst.View() == Painted(prior, Below(OddColumnPaint(src, w, h), 2 * y + 2))
  {
    ghost var before := dst.View();
    RowInBounds(|src.data|, src.stride, w / 2, h / 2, y);
    RowInBounds(dst.buf.Length, dst.stride, w, h, 2 * y);
    var from, to := y * src.stride, 2 * y * dst.stride;
    FillRow(src, from, dst, to, w);
    FilledRow(src, from, prior, before, dst.View(), w, h, 2 * y, to);
  }

  /** The chroma pass. */
  method CombineChroma(auxY: Plane, auxU: Plane, auxV: Plane, dstU: PlaneMut, dstV: PlaneMut, w: nat, h: nat)
    requires w % 2 == 0 && h % 2 == 0 && dstU.buf != dstV.buf
    requires PlaneFits(auxY, w, PaddedAuxHeight(h))
    requires PlaneFits(auxU, w / 2, h / 2) && PlaneFits(auxV, w / 2, h / 2)
    requires Fits(dstU.buf.Length, dstU.stride, w, h) && Fits(dstV.buf.Length, dstV.stride, w, h)
    modifies dstU.buf, dstV.buf
    ensures dstU.View() == ChromaPass(old(dstU.View()), auxY, auxU, true, w, h)
    ensures dstV.View() == ChromaPass(old(dstV.View()), auxY, auxV, false, w, h)
    ensures ChromaCells(dstU.View(), old(dstU.View()), auxY, auxU, 0, w, h)
    ensures ChromaCells(dstV.View(), old(dstV.View()), auxY, auxV, 8, w, h)
  {
    ChromaOnCells(dstU.View(), auxY, auxU, true, w, h);
    ChromaOnCells(dstV.View(), auxY, auxV, false, w, h);
    UnpackStrips(auxY, dstU, dstV, w, h);
    FillColumns(auxU, dstU, w, h);
    FillColumns(auxV, dstV, w, h);
  }

  // ---------------------------------------------------------------------------
  // The two directions undo each other
  // ---------------------------------------------------------------------------

  /** `p` holds `w` x `h` samples equal to those of `q`, and is `prior` everywhere else. */
  ghost predicate Rebuilt(p: Plane, q: Plane, prior: Plane, w: nat, h: nat) {
    && p.stride == prior.stride && |p.data| == |prior.data|
    && (forall x, y :: InFrame(x, y, w, h) ==> At(p, x, y) == At(q, x, y))
    && Untouched(p, prior, w, h)
  }

  /** No cell outside the frame differs: neither row padding nor rows below it. */
  ghost predicate Untouched(p: Plane, prior: Plane, w: nat, h: nat)
    requires |p.data| == |prior.data|
  {
    forall i :: 0 <= i < |p.data| && (p.stride == 0 || !InFrame(i % p.stride, i / p.stride, w, h)) ==>
      p.data[i] == prior.data[i]
  }

  /** Y survives main view and back. */
  lemma LumaRoundTrip(src: Plane, main: Plane, dst: Plane, w: nat, h: nat)
    requires PlaneFits(src, w, h) && PlaneFits(main, w, h) && PlaneFits(dst, w, h)
    ensures Rebuilt(Painted(dst, CopyPaint(Painted(main, CopyPaint(src, w, h)), w, h)), src, dst, w, h)
  {
    var sent := Painted(main, CopyPaint(src, w, h));
    forall x, y | InFrame(x, y, w, h)
      ensures At(Painted(dst, CopyPaint(sent, w, h)), x, y) == At(src, x, y)
    {
      AtPainted(main, CopyPaint(src, w, h), x, y, w, h);
      AtPainted(dst, CopyPaint(sent, w, h), x, y, w, h);
    }
  }

  /** A chroma plane as the decoder leaves it: the luma pass, then the chroma pass. */
  ghost function Combined(dst: Plane, main: Plane, auxY: Plane, aux: Plane, isU: bool, w: nat, h: nat): Plane {
    ChromaPass(Painted(dst, BlockPaint(main, w, h)), auxY, aux, isU, w, h)
  }

  /** Where each combined sample comes from. */
  lemma CombinedSample(dst: Plane, main: Plane, auxY: Plane, aux: Plane, isU: bool, w: nat, h: nat, x: nat, y: nat)
    requires PlaneFits(dst, w, h) && InFrame(x, y, w, h)
    ensures At(Combined(dst, main, auxY, aux, isU, w, h), x, y)
         == if y % 2 == 1 then At(auxY, x, AuxRow(isU, y))
            else At(if x % 2 == 1 then aux else main, x / 2, y / 2)
  {
    var block, row, col := BlockPaint(main, w, h), OddRowPaint(auxY, isU, w, h), OddColumnPaint(aux, w, h);
    AtPainted(dst, block, x, y, w, h);
    AtPainted(Painted(dst, block), row, x, y, w, h);
    AtPainted(Painted(Painted(dst, block), row), col, x, y, w, h);
  }

  /** What the split sends of a chroma plane, at the place the decoder looks for sample (x, y). */
  lemma SentSample(src: Plane, strips: Paint, isU: bool, main: Plane, auxY: Plane, aux: Plane, w: nat, h: nat, x: nat, y: nat)
    requires w % 2 == 0 && h % 2 == 0 && InFrame(x, y, w, h)
    requires PlaneFits(main, w / 2, h / 2) && PlaneFits(aux, w / 2, h / 2)
    requires PlaneFits(auxY, w, PaddedAuxHeight(h))
    requires y % 2 == 1 ==> strips(x, AuxRow(isU, y)) == Some(At(src, x, y))
    ensures At(src, x, y)
         == if y % 2 == 1 then At(Painted(auxY, strips), x, AuxRow(isU, y))
            else if x % 2 == 1 then At(Painted(aux, QuarterPaint(src, 1, w, h)), x / 2, y / 2)
            else At(Painted(main, QuarterPaint(src, 0, w, h)), x / 2, y / 2)
  {
    if y % 2 == 1 {
      StripLayout(isU, y, AuxRow(isU, y), h);
      AtPainted(auxY, strips, x, AuxRow(isU, y), w, PaddedAuxHeight(h));
    } else if x % 2 == 1 {
      AtPainted(aux, QuarterPaint(src, 1, w, h), x / 2, y / 2, w / 2, h / 2);
      assert 2 * (x / 2) + 1 == x && 2 * (y / 2) == y;
    } else {
      AtPainted(main, QuarterPaint(src, 0, w, h), x / 2, y / 2, w / 2, h / 2);
      assert 2 * (x / 2) == x && 2 * (y / 2) == y;
    }
  }

  /** One chroma plane survives the split, the luma pass and then the chroma pass, whatever the
      five buffers held before.  `other` is the other chroma plane of the frame. */
  lemma ChromaRoundTrip(src: Plane, other: Plane, isU: bool, main: Plane, auxY: Plane, aux: Plane, dst: Plane, w: nat, h: nat)
    requires w % 2 == 0 && h % 2 == 0 && PlaneFits(src, w, h) && PlaneFits(dst, w, h)
    requires PlaneFits(main, w / 2, h / 2) && PlaneFits(aux, w / 2, h / 2)
    requires PlaneFits(auxY, w, PaddedAuxHeight(h))
    ensures var sentMain := Painted(main, QuarterPaint(src, 0, w, h));
            var sentStrips := Painted(auxY, if isU then StripPaint(src, other, w, h) else StripPaint(other, src, w, h));
            var sentAux := Painted(aux, QuarterPaint(src, 1, w, h));
            Rebuilt(Combined(dst, sentMain, sentStrips, sentAux, isU, w, h), src, dst, w, h)
  {
    var strips := if isU then StripPaint(src, other, w, h) else StripPaint(other, src, w, h);
    var sentMain := Painted(main, QuarterPaint(src, 0, w, h));
    var sentAux := Painted(aux, QuarterPaint(src, 1, w, h));
    forall x, y | InFrame(x, y, w, h)
      ensures At(Combined(dst, sentMain, Painted(auxY, strips), sentAux, isU, w, h), x, y) == At(src, x, y)
    {
      if y % 2 == 1 {
        StripLayout(isU, y, AuxRow(isU, y), h);
      }
      CombinedSample(dst, sentMain, Painted(auxY, strips), sentAux, isU, w, h, x, y);
      SentSample(src, strips, isU, main, auxY, aux, w, h, x, y);
    }
  }

  /** A whole frame out and back through the three passes, in place: all three planes are exact
      again, whatever the nine buffers held and however they are strided. */
  method FrameRoundTrip(srcY: Plane, srcU: Plane, srcV: Plane,
                           mainY: PlaneMut, mainU: PlaneMut, mainV: PlaneMut,
                           auxY: PlaneMut, auxU: PlaneMut, auxV: PlaneMut,
                           dstY: PlaneMut, dstU: PlaneMut, dstV: PlaneMut, w: nat, h: nat)
    requires w % 2 == 0 && h % 2 == 0
    requires PlaneFits(srcY, w, h) && PlaneFits(srcU, w, h) && PlaneFits(srcV, w, h)
    requires Fits(mainY.buf.Length, mainY.stride, w, h)
    requires Fits(mainU.buf.Length, mainU.stride, w / 2, h / 2) && Fits(mainV.buf.Length, mainV.stride, w / 2, h / 2)
    requires Fits(auxY.buf.Length, auxY.stride, w, PaddedAuxHeight(h))
    requires Fits(auxU.buf.Length, auxU.stride, w / 2, h / 2) && Fits(auxV.buf.Length, auxV.stride, w / 2, h / 2)
    requires Fits(dstY.buf.Length, dstY.stride, w, h)
    requires Fits(dstU.buf.Length, dstU.stride, w, h) && Fits(dstV.buf.Length, dstV.stride, w, h)
    requires mainY.buf != mainU.buf && mainY.buf != mainV.buf && mainU.buf != mainV.buf
    requires auxY.buf != auxU.buf && auxY.buf != auxV.buf && auxU.buf != auxV.buf
    requires dstY.buf != dstU.buf && dstY.buf != dstV.buf && dstU.buf != dstV.buf
    requires {mainY.buf, mainU.buf, mainV.buf} !! {auxY.buf, auxU.buf, auxV.buf} !! {dstY.buf, dstU.buf, dstV.buf}
    modifies mainY.buf, mainU.buf, mainV.buf, auxY.buf, auxU.buf, auxV.buf, dstY.buf, dstU.buf, dstV.buf
    ensures Rebuilt(dstY.View(), srcY, old(dstY.View()), w, h)
    ensures Rebuilt(dstU.View(), srcU, old(dstU.View()), w, h)
    ensures Rebuilt(dstV.View(), srcV, old(dstV.View()), w, h)
  {
    LumaRoundTrip(srcY, mainY.View(), dstY.View(), w, h);
    ChromaRoundTrip(srcU, srcV, true, mainU.View(), auxY.View(), auxU.View(), dstU.View(), w, h);
    ChromaRoundTrip(srcV, srcU, false, mainV.View(), auxY.View(), auxV.View(), dstV.View(), w, h);
    SplitYuv444(srcY, srcU, srcV, mainY, mainU, mainV, auxY, auxU, auxV, w, h);
    var sentY, sentU, sentV := Frozen(mainY), Frozen(mainU), Frozen(mainV);
    CombineLuma(sentY, sentU, sentV, dstY, dstU, dstV, w, h);
    CombineChroma(Frozen(auxY), Frozen(auxU), Frozen(auxV), dstU, dstV, w, h);
  }

  /** A plane as the next pass borrows it. */
  function Frozen(p: PlaneMut): Plane
    reads p.buf
  {
    Plane(p.buf[..], p.stride)
  }

  lemma QuarterOf(prior: Plane, c: Plane, dx: nat, w: nat, h: nat, x: nat, y: nat)
    requires InFrame(x, y, w / 2, h / 2) && PlaneFits(prior, w / 2, h / 2)
    ensures At(Painted(prior, QuarterPaint(c, dx, w, h)), x, y) == At(c, 2 * x + dx, 2 * y)
  {
    AtPainted(prior, QuarterPaint(c, dx, w, h), x, y, w / 2, h / 2);
  }

  lemma Doubled(x: nat, n: nat)
    requires x < n / 2
    ensures 2 * x + 1 < n && 2 * x / 2 == x && 2 * x % 2 == 0 && (2 * x + 1) / 2 == x && (2 * x + 1) % 2 == 1
  {
  }

  /** A sample in an even row of a combined plane. */
  lemma CombinedEven(dst: Plane, main: Plane, auxY: Plane, aux: Plane, isU: bool, w: nat, h: nat, col: nat, row: nat, x: nat, y: nat)
    requires PlaneFits(dst, w, h) && InFrame(col, row, w, h) && row % 2 == 0 && row / 2 == y && col / 2 == x
    ensures At(Combined(dst, main, auxY, aux, isU, w, h), col, row) == At(if col % 2 == 1 then aux else main, x, y)
  {
    CombinedSample(dst, main, auxY, aux, isU, w, h, col, row);
  }

  /** The other way round: splitting what the decoder combined from any two views gives their
      quarter-size chroma planes back. */
  lemma QuartersRoundTrip(dst: Plane, main: Plane, auxY: Plane, aux: Plane, isU: bool,
                          priorMain: Plane, priorAux: Plane, w: nat, h: nat, x: nat, y: nat)
    requires w % 2 == 0 && h % 2 == 0 && PlaneFits(dst, w, h) && InFrame(x, y, w / 2, h / 2)
    requires PlaneFits(priorMain, w / 2, h / 2) && PlaneFits(priorAux, w / 2, h / 2)
    ensures var c := Combined(dst, main, auxY, aux, isU, w, h);
            && At(Painted(priorMain, QuarterPaint(c, 0, w, h)), x, y) == At(main, x, y)
            && At(Painted(priorAux, QuarterPaint(c, 1, w, h)), x, y) == At(aux, x, y)
  {
    var c := Combined(dst, main, auxY, aux, isU, w, h);
    QuarterOf(priorMain, c, 0, w, h, x, y);
    QuarterOf(priorAux, c, 1, w, h, x, y);
    Doubled(x, w);
    Doubled(y, h);
    CombinedEven(dst, main, auxY, aux, isU, w, h, 2 * x, 2 * y, x, y);
    CombinedEven(dst, main, auxY, aux, isU, w, h, 2 * x + 1, 2 * y, x, y);
  }

  /** ... and every auxiliary Y row that carries a row of the frame. */
  lemma StripsRoundTrip(dstU: Plane, dstV: Plane, mainU: Plane, mainV: Plane, auxY: Plane, auxU: Plane, auxV: Plane,
                        prior: Plane, w: nat, h: nat, x: nat, y: nat)
    requires PlaneFits(dstU, w, h) && PlaneFits(dstV, w, h) && PlaneFits(prior, w, PaddedAuxHeight(h))
    requires InFrame(x, y, w, PaddedAuxHeight(h)) && CarriedRow(y) < h
    ensures var u := Combined(dstU, mainU, auxY, auxU, true, w, h);
            var v := Combined(dstV, mainV, auxY, auxV, false, w, h);
            At(Painted(prior, StripPaint(u, v, w, h)), x, y) == At(auxY, x, y)
  {
    var u := Combined(dstU, mainU, auxY, auxU, true, w, h);
    var v := Combined(dstV, mainV, auxY, auxV, false, w, h);
    AtPainted(prior, StripPaint(u, v, w, h), x, y, w, PaddedAuxHeight(h));
    if CarriesU(y) {
      CombinedStrip(dstU, mainU, auxY, auxU, w, h, x, y);
    } else {
      CombinedStrip(dstV, mainV, auxY, auxV, w, h, x, y);
    }
  }

  lemma CombinedStrip(dst: Plane, main: Plane, auxY: Plane, aux: Plane, w: nat, h: nat, x: nat, y: nat)
    requires PlaneFits(dst, w, h) && x < w && CarriedRow(y) < h
    ensures At(Combined(dst, main, auxY, aux, CarriesU(y), w, h), x, CarriedRow(y)) == At(auxY, x, y)
  {
    StripLayout(CarriesU(y), CarriedRow(y), y, h);
    CombinedSample(dst, main, auxY, aux, CarriesU(y), w, h, x, CarriedRow(y));
  }
}
