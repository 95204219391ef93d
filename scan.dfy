/** What the scan loops of the editing engine compute, as functions of the
    canvas and the selection, and what is proved about them: which samples a
    copy keeps, in which order, where a paste or a clear writes, and which
    cells the selection preview tints. */
module Scan {
  import opened Pixels

  // ---------------------------------------------------------------------------
  // Flat-index arithmetic shared by every scan loop

  /** A flat index below `w * h` exists only when the rectangle has columns. */
  lemma WidthPositive(ii: nat, w: nat, h: nat)
    requires ii < w * h
    ensures w > 0
  {
  }

  lemma MulAtLeast(a: int, b: int)
    requires a >= 1 && b > 0
    ensures a * b >= b
  {
  }

  lemma DivModSplit(ii: int, w: int)
    requires w > 0
    ensures ii == (ii / w) * w + ii % w && 0 <= ii % w < w
  {
  }

  /** Splitting a flat index into `(ii % w, ii / w)` is the inverse of
      `yy * w + xx` on a `w`-wide grid. */
  lemma DivModOf(ii: int, w: int, q: int, r: int)
    requires w > 0 && 0 <= r < w && ii == q * w + r
    ensures ii / w == q && ii % w == r
  {
    var q0, r0 := ii / w, ii % w;
    DivModSplit(ii, w);
    assert (q - q0) * w == r0 - r;
    if q - q0 >= 1 {
      MulAtLeast(q - q0, w);
    } else if q0 - q >= 1 {
      assert (q0 - q) * w == r - r0;
      MulAtLeast(q0 - q, w);
    }
  }

  /** A cell of a `w`-wide grid lies in the first `h` rows exactly when its
      flat index is below `w * h`. */
  lemma RowMajorBelow(xx: int, yy: int, w: int, h: int)
    requires 0 <= xx < w && 0 <= yy
    ensures yy * w + xx < w * h <==> yy < h
  {
    if yy < h {
      MulAtLeast(h - yy, w);
      assert (h - yy) * w == w * h - yy * w;
    } else if yy > h {
      MulAtLeast(yy - h, w);
      assert (yy - h) * w == yy * w - w * h;
    }
  }

  /** `px = (yy * bw + xx) * 4`, recomputed from the byte counter `ii` of a
      mask loop, is `ii` itself: the alpha tested is `data[ii + 3]`. */
  lemma MaskIndex(ii: nat, bw: int)
    requires bw > 0 && ii % 4 == 0
    ensures ((ii / 4) / bw * bw + (ii / 4) % bw) * 4 == ii
  {
  }

  /** The samples are inside the `w`-wide grid, below flat index `n`, and
      strictly ascending in row-major order. */
  predicate InScanOrder(ps: seq<Pixel>, w: int, n: int)
  {
    (forall i :: 0 <= i < |ps| ==> 0 <= ps[i].x < w && 0 <= ps[i].y && RowMajor(ps[i], w) < n) &&
    (forall i, j :: 0 <= i < j < |ps| ==> RowMajor(ps[i], w) < RowMajor(ps[j], w))
  }

  /** Appending at most one sample at index `ii`, the next one of the scan,
      keeps the scan order. */
  lemma OrderedSnoc(ps: seq<Pixel>, cell: seq<Pixel>, w: int, ii: int)
    requires InScanOrder(ps, w, ii)
    requires |cell| <= 1
    requires forall i :: 0 <= i < |cell| ==> 0 <= cell[i].x < w && 0 <= cell[i].y && RowMajor(cell[i], w) == ii
    ensures InScanOrder(ps + cell, w, ii + 1)
  {
    var r := ps + cell;
    forall i, j | 0 <= i < j < |r| ensures RowMajor(r[i], w) < RowMajor(r[j], w) {
      if j >= |ps| {
        assert r[j] == cell[0];
      }
    }
  }

  // ---------------------------------------------------------------------------
  // Rectangle scan (`copyBySelection`, the rectangular path of `clearRect`)

  /** The sample kept for flat index `ii` of a `w`-wide rectangle at `(ox, oy)`:
      nothing for an undrawn pixel. */
  function RectCell(c: Canvas, ox: int, oy: int, w: int, ii: nat): seq<Pixel>
    requires w > 0
  {
    var xx := ii % w;
    var yy := ii / w;
    match c(ox + xx, oy + yy)
    case None => []
    case Some(col) => [Pixel(xx, yy, col)]
  }

  /** The samples kept by the first `n` iterations of a rectangle scan. */
  function RectScan(c: Canvas, ox: int, oy: int, w: int, n: nat): seq<Pixel>
    requires n == 0 || w > 0
    decreases n
  {
    if n == 0 then [] else RectScan(c, ox, oy, w, n - 1) + RectCell(c, ox, oy, w, n - 1)
  }

  /** One iteration of a rectangle loop at flat index `ii`. */
  lemma RectStep(c: Canvas, ox: int, oy: int, w: int, ii: nat, xx: int, yy: int)
    requires w > 0 && xx == ii % w && yy == ii / w
    ensures RectScan(c, ox, oy, w, ii + 1) ==
      RectScan(c, ox, oy, w, ii) +
      (if c(ox + xx, oy + yy).Some? then [Pixel(xx, yy, c(ox + xx, oy + yy).value)] else [])
  {
  }

  /** The sample of flat index `ii` is the drawn pixel at that index. */
  lemma RectCellMembers(c: Canvas, ox: int, oy: int, w: int, ii: nat, p: Pixel)
    requires w > 0
    ensures p in RectCell(c, ox, oy, w, ii) <==>
      0 <= p.x < w && 0 <= p.y && RowMajor(p, w) == ii && c(ox + p.x, oy + p.y) == Some(p.color)
  {
    if 0 <= p.x < w && 0 <= p.y && RowMajor(p, w) == ii {
      DivModOf(ii, w, p.y, p.x);
    }
    DivModSplit(ii, w);
  }

  /** A sample is kept by the first `n` iterations exactly when it is a drawn
      pixel of the grid whose flat index is below `n`, carrying its color. */
  lemma {:induction false} RectScanMembers(c: Canvas, ox: int, oy: int, w: int, n: nat, p: Pixel)
    requires w > 0
    ensures p in RectScan(c, ox, oy, w, n) <==>
      0 <= p.x < w && 0 <= p.y && RowMajor(p, w) < n && c(ox + p.x, oy + p.y) == Some(p.color)
  {
    if n > 0 {
      RectScanMembers(c, ox, oy, w, n - 1, p);
      RectCellMembers(c, ox, oy, w, n - 1, p);
    }
  }

  /** A rectangle scan keeps its samples in ascending row-major order. */
  lemma {:induction false} RectScanOrdered(c: Canvas, ox: int, oy: int, w: int, n: nat)
    requires w > 0
    ensures InScanOrder(RectScan(c, ox, oy, w, n), w, n)
  {
    if n > 0 {
      var ii := n - 1;
      RectScanOrdered(c, ox, oy, w, ii);
      var cell := RectCell(c, ox, oy, w, ii);
      DivModSplit(ii, w);
      assert forall i :: 0 <= i < |cell| ==> cell[i].x == ii % w && cell[i].y == ii / w;
      OrderedSnoc(RectScan(c, ox, oy, w, ii), cell, w, ii);
    }
  }

  /** `copyBySelection` keeps exactly the drawn pixels of `[0,w) x [0,h)`,
      relative to the selection origin, each with its color. */
  lemma RectCopyMembers(c: Canvas, x: int, y: int, w: nat, h: nat, p: Pixel)
    ensures p in RectScan(c, x, y, w, w * h) <==>
      0 <= p.x < w && 0 <= p.y < h && c(x + p.x, y + p.y) == Some(p.color)
  {
    if w > 0 {
      RectScanMembers(c, x, y, w, w * h, p);
      if 0 <= p.x < w && 0 <= p.y {
        RowMajorBelow(p.x, p.y, w, h);
      }
    }
  }

  /** `copyBySelection` lists its samples row by row, never outside the rectangle. */
  lemma RectCopyOrdered(c: Canvas, x: int, y: int, w: nat, h: nat)
    ensures InScanOrder(RectScan(c, x, y, w, w * h), w, w * h)
    ensures forall p :: p in RectScan(c, x, y, w, w * h) ==> 0 <= p.x < w && 0 <= p.y < h
  {
    if w > 0 {
      RectScanOrdered(c, x, y, w, w * h);
      forall p | p in RectScan(c, x, y, w, w * h) ensures 0 <= p.x < w && 0 <= p.y < h {
        RectCopyMembers(c, x, y, w, h, p);
      }
    }
  }

  /** Flat index `ii` of a `w`-wide rectangle at `(ox, oy)` is drawn. */
  predicate Drawn(c: Canvas, ox: int, oy: int, w: int, ii: int)
  {
    w > 0 && c(ox + ii % w, oy + ii / w).Some?
  }

  /** Over a fully drawn rectangle the scan is dense: the `i`-th sample is the
      pixel at flat index `i`. */
  lemma {:induction false} RectScanDense(c: Canvas, ox: int, oy: int, w: int, n: nat)
    requires w > 0
    requires forall ii :: 0 <= ii < n ==> Drawn(c, ox, oy, w, ii)
    ensures |RectScan(c, ox, oy, w, n)| == n
    ensures forall i :: 0 <= i < n ==>
      RectScan(c, ox, oy, w, n)[i].x == i % w && RectScan(c, ox, oy, w, n)[i].y == i / w &&
      c(ox + i % w, oy + i / w) == Some(RectScan(c, ox, oy, w, n)[i].color)
  {
    if n > 0 {
      RectScanDense(c, ox, oy, w, n - 1);
      assert Drawn(c, ox, oy, w, n - 1);
    }
  }

  // ---------------------------------------------------------------------------
  // Mask scan (`copyByShape`, `clearByShape`)

  /** Cell `idx` of a mask is a member: its alpha byte, the fourth of its
      four-byte group, exists and is positive. */
  predicate InMask(data: seq<int>, idx: int)
  {
    0 <= 4 * idx + 3 < |data| && data[4 * idx + 3] > 0
  }

  /** The sample kept for cell `idx` of a mask, read at origin `(ox, oy)`:
      nothing when the alpha byte is not positive or the pixel is undrawn. */
  function ShapeCell(c: Canvas, data: seq<int>, ox: int, oy: int, bw: int, idx: nat): seq<Pixel>
    requires bw > 0 && 4 * idx + 3 < |data|
  {
    var xx := idx % bw;
    var yy := idx / bw;
    if data[4 * idx + 3] <= 0 then []
    else match c(ox + xx, oy + yy)
      case None => []
      case Some(col) => [Pixel(xx, yy, col)]
  }

  lemma ShapeCellMembers(c: Canvas, data: seq<int>, ox: int, oy: int, bw: int, idx: nat, p: Pixel)
    requires bw > 0 && 4 * idx + 3 < |data|
    ensures p in ShapeCell(c, data, ox, oy, bw, idx) <==>
      0 <= p.x < bw && 0 <= p.y && RowMajor(p, bw) == idx && InMask(data, idx) &&
      c(ox + p.x, oy + p.y) == Some(p.color)
  {
    if 0 <= p.x < bw && 0 <= p.y && RowMajor(p, bw) == idx {
      DivModOf(idx, bw, p.y, p.x);
    }
    DivModSplit(idx, bw);
  }

  /** The samples kept by the first `k` four-byte groups of a mask scan. */
  function ShapeScan(c: Canvas, data: seq<int>, ox: int, oy: int, bw: int, k: nat): seq<Pixel>
    requires bw > 0 && 4 * k <= |data|
    decreases k
  {
    if k == 0 then [] else ShapeScan(c, data, ox, oy, bw, k - 1) + ShapeCell(c, data, ox, oy, bw, k - 1)
  }

  /** One iteration of a mask loop at byte counter `ii`: the recomputed
      index `(yy * bw + xx) * 4` is `ii`, and the kept samples grow by the
      sample of cell `(xx, yy)` when its alpha is positive and its pixel drawn. */
  lemma ShapeStep(c: Canvas, data: seq<int>, ox: int, oy: int, bw: int, ii: nat, xx: int, yy: int)
    requires bw > 0 && |data| % 4 == 0 && ii % 4 == 0 && ii < |data|
    requires xx == (ii / 4) % bw && yy == (ii / 4) / bw
    ensures (yy * bw + xx) * 4 == ii
    ensures ii + 4 <= |data| && (ii + 4) / 4 == ii / 4 + 1
    ensures ShapeScan(c, data, ox, oy, bw, (ii + 4) / 4) ==
      ShapeScan(c, data, ox, oy, bw, ii / 4) +
      (if data[ii + 3] > 0 && c(ox + xx, oy + yy).Some? then [Pixel(xx, yy, c(ox + xx, oy + yy).value)] else [])
  {
    MaskIndex(ii, bw);
  }

  /** A sample is kept by the first `k` groups exactly when it is a member cell
      below index `k` whose pixel, read at the origin, is drawn in its color. */
  lemma {:induction false} ShapeScanMembers(c: Canvas, data: seq<int>, ox: int, oy: int, bw: int, k: nat, p: Pixel)
    requires bw > 0 && 4 * k <= |data|
    ensures p in ShapeScan(c, data, ox, oy, bw, k) <==>
      0 <= p.x < bw && 0 <= p.y && RowMajor(p, bw) < k && InMask(data, RowMajor(p, bw)) &&
      c(ox + p.x, oy + p.y) == Some(p.color)
  {
    if k > 0 {
      ShapeScanMembers(c, data, ox, oy, bw, k - 1, p);
      ShapeCellMembers(c, data, ox, oy, bw, k - 1, p);
    }
  }

  /** A mask scan keeps its samples in ascending row-major order. */
  lemma {:induction false} ShapeScanOrdered(c: Canvas, data: seq<int>, ox: int, oy: int, bw: int, k: nat)
    requires bw > 0 && 4 * k <= |data|
    ensures InScanOrder(ShapeScan(c, data, ox, oy, bw, k), bw, k)
  {
    if k > 0 {
      ShapeScanOrdered(c, data, ox, oy, bw, k - 1);
      DivModSplit(k - 1, bw);
      OrderedSnoc(ShapeScan(c, data, ox, oy, bw, k - 1), ShapeCell(c, data, ox, oy, bw, k - 1), bw, k - 1);
    }
  }

  /** `copyByShape` keeps exactly the member cells of the mask whose pixel at
      `(bx + xx, by + yy)` is drawn, with mask-relative coordinates and the
      sampled color; when the mask has `bw * bh` cells they all lie inside it. */
  lemma ShapeCopyMembers(c: Canvas, s: Shape, p: Pixel)
    requires WellFormedShape(s)
    ensures p in ShapeScan(c, s.data, s.bounds.x, s.bounds.y, s.bounds.w, |s.data| / 4) <==>
      0 <= p.x < s.bounds.w && 0 <= p.y && InMask(s.data, RowMajor(p, s.bounds.w)) &&
      c(s.bounds.x + p.x, s.bounds.y + p.y) == Some(p.color)
    ensures (|s.data| == 4 * (s.bounds.w * s.bounds.h) &&
             p in ShapeScan(c, s.data, s.bounds.x, s.bounds.y, s.bounds.w, |s.data| / 4)) ==>
      p.y < s.bounds.h
  {
    var bw := s.bounds.w;
    var k := |s.data| / 4;
    ShapeScanMembers(c, s.data, s.bounds.x, s.bounds.y, bw, k, p);
    var idx := RowMajor(p, bw);
    assert InMask(s.data, idx) ==> idx < k;
    if 0 <= p.x < bw && 0 <= p.y {
      RowMajorBelow(p.x, p.y, bw, s.bounds.h);
    }
  }

  // ---------------------------------------------------------------------------
  // Writes issued into a batch

  /** `paste`: one paint per clipboard sample, in list order, at the new origin. */
  function Paints(ox: int, oy: int, ps: seq<Pixel>): seq<Write>
  {
    seq(|ps|, i requires 0 <= i < |ps| => Paint(ox + ps[i].x, oy + ps[i].y, ps[i].color))
  }

  /** The clears: one erase per sample, at the origin, carrying the color removed. */
  function Erases(ox: int, oy: int, ps: seq<Pixel>): seq<Write>
  {
    seq(|ps|, i requires 0 <= i < |ps| => Erase(ox + ps[i].x, oy + ps[i].y, ps[i].color))
  }

  lemma PaintsSnoc(ox: int, oy: int, ps: seq<Pixel>, p: Pixel)
    ensures Paints(ox, oy, ps + [p]) == Paints(ox, oy, ps) + [Paint(ox + p.x, oy + p.y, p.color)]
  {
  }

  lemma ErasesSnoc(ox: int, oy: int, ps: seq<Pixel>, p: Pixel)
    ensures Erases(ox, oy, ps + [p]) == Erases(ox, oy, ps) + [Erase(ox + p.x, oy + p.y, p.color)]
  {
  }

  lemma PaintsMembers(ox: int, oy: int, ps: seq<Pixel>, wr: Write)
    ensures wr in Paints(ox, oy, ps) <==> wr.Paint? && Pixel(wr.x - ox, wr.y - oy, wr.color) in ps
  {
    var p := Pixel(wr.x - ox, wr.y - oy, wr.color);
    if wr.Paint? && p in ps {
      var i :| 0 <= i < |ps| && ps[i] == p;
      assert Paints(ox, oy, ps)[i] == wr;
    }
  }

  lemma ErasesMembers(ox: int, oy: int, ps: seq<Pixel>, wr: Write)
    ensures wr in Erases(ox, oy, ps) <==> wr.Erase? && Pixel(wr.x - ox, wr.y - oy, wr.color) in ps
  {
    var p := Pixel(wr.x - ox, wr.y - oy, wr.color);
    if wr.Erase? && p in ps {
      var i :| 0 <= i < |ps| && ps[i] == p;
      assert Erases(ox, oy, ps)[i] == wr;
    }
  }

  // ---------------------------------------------------------------------------
  // The operations, as functions of the canvas and the selection

  /** The pixel list `copy` stores: a mask scan at the mask origin for a shape
      selection, a rectangle scan at the selection origin otherwise. */
  function CopiedPixels(c: Canvas, sel: Selection): seq<Pixel>
    requires ValidSelection(sel)
  {
    match sel.shape
    case None => RectScan(c, sel.x, sel.y, sel.w, sel.w * sel.h)
    case Some(s) => ShapeScan(c, s.data, s.bounds.x, s.bounds.y, s.bounds.w, |s.data| / 4)
  }

  /** The erase writes `clearRect` issues. The shape path reads and erases at
      the selection origin `(x + xx, y + yy)`, not at the mask origin. */
  function ClearWrites(c: Canvas, sel: Selection): seq<Write>
    requires ValidSelection(sel)
  {
    match sel.shape
    case None => Erases(sel.x, sel.y, RectScan(c, sel.x, sel.y, sel.w, sel.w * sel.h))
    case Some(s) => Erases(sel.x, sel.y, ShapeScan(c, s.data, sel.x, sel.y, s.bounds.w, |s.data| / 4))
  }

  /** Copy then paste at `(x2, y2)` paints exactly the drawn pixels of the
      rectangle, each moved by the same offset and keeping its color. */
  lemma CopyPasteMembers(c: Canvas, x: int, y: int, w: nat, h: nat, x2: int, y2: int, wr: Write)
    ensures wr in Paints(x2, y2, RectScan(c, x, y, w, w * h)) <==>
      wr.Paint? && 0 <= wr.x - x2 < w && 0 <= wr.y - y2 < h &&
      c(x + (wr.x - x2), y + (wr.y - y2)) == Some(wr.color)
  {
    PaintsMembers(x2, y2, RectScan(c, x, y, w, w * h), wr);
    RectCopyMembers(c, x, y, w, h, Pixel(wr.x - x2, wr.y - y2, wr.color));
  }

  /** Over a rectangle with no undrawn pixel, copy then paste reproduces the
      whole pattern at the new origin, write `ii` in row-major position `ii`. */
  lemma CopyPasteRoundTrip(c: Canvas, x: int, y: int, w: nat, h: nat, x2: int, y2: int)
    requires w > 0
    requires forall ii :: 0 <= ii < w * h ==> Drawn(c, x, y, w, ii)
    ensures |Paints(x2, y2, RectScan(c, x, y, w, w * h))| == w * h
    ensures forall ii :: 0 <= ii < w * h ==>
      var wr := Paints(x2, y2, RectScan(c, x, y, w, w * h))[ii];
      wr.Paint? && wr.x == x2 + ii % w && wr.y == y2 + ii / w && c(x + ii % w, y + ii / w) == Some(wr.color)
  {
    RectScanDense(c, x, y, w, w * h);
  }

  /** The rectangular clear erases exactly the drawn pixels of the rectangle,
      at their own absolute position, carrying their own color. */
  lemma ClearRectErases(c: Canvas, x: int, y: int, w: nat, h: nat, wr: Write)
    ensures wr in Erases(x, y, RectScan(c, x, y, w, w * h)) <==>
      wr.Erase? && 0 <= wr.x - x < w && 0 <= wr.y - y < h && c(wr.x, wr.y) == Some(wr.color)
  {
    ErasesMembers(x, y, RectScan(c, x, y, w, w * h), wr);
    RectCopyMembers(c, x, y, w, h, Pixel(wr.x - x, wr.y - y, wr.color));
  }

  /** The shape clear erases exactly the drawn pixels at `(x + xx, y + yy)`
      whose mask-local cell `(xx, yy)` is a member, carrying their color. */
  lemma ClearShapeErases(c: Canvas, s: Shape, x: int, y: int, wr: Write)
    requires WellFormedShape(s)
    ensures wr in Erases(x, y, ShapeScan(c, s.data, x, y, s.bounds.w, |s.data| / 4)) <==>
      wr.Erase? && 0 <= wr.x - x < s.bounds.w && 0 <= wr.y - y &&
      InMask(s.data, (wr.y - y) * s.bounds.w + (wr.x - x)) && c(wr.x, wr.y) == Some(wr.color)
  {
    var p := Pixel(wr.x - x, wr.y - y, wr.color);
    ErasesMembers(x, y, ShapeScan(c, s.data, x, y, s.bounds.w, |s.data| / 4), wr);
    ShapeScanMembers(c, s.data, x, y, s.bounds.w, |s.data| / 4, p);
  }

  /** A clear over a rectangle, or over a mask anchored at the selection
      origin, erases precisely what a copy of the same selection keeps; so the
      guard of `cut` (nothing copied) agrees with the guard of the clear. */
  lemma ClearErasesCopy(c: Canvas, sel: Selection)
    requires ValidSelection(sel)
    requires sel.shape.Some? ==> sel.shape.value.bounds.x == sel.x && sel.shape.value.bounds.y == sel.y
    ensures ClearWrites(c, sel) == Erases(sel.x, sel.y, CopiedPixels(c, sel))
    ensures ClearWrites(c, sel) == [] <==> CopiedPixels(c, sel) == []
  {
  }

  /** When the mask origin differs from the selection origin, a shape
      selection can copy a pixel that the clear then does not erase. */
  lemma MisalignedShapeClear()
    ensures
      var c: Canvas := (u: int, v: int) => if u == 5 && v == 5 then Some(Rgba(0, 0, 0, 255)) else None;
      var sel := Selection(0, 0, 1, 1, Some(Shape([0, 0, 0, 255], Bounds(5, 5, 1, 1))));
      CopiedPixels(c, sel) == [Pixel(0, 0, Rgba(0, 0, 0, 255))] && ClearWrites(c, sel) == []
  {
  }

  // ---------------------------------------------------------------------------
  // Selection preview (`getShapeByOffset`)

  /** The cells tinted by the first `n` iterations over a traced shape: those
      whose code is 2, at `(ii % bw, ii / bw)`. */
  function TintedCells(shape: seq<int>, bw: int, n: nat): seq<Cell>
    requires bw > 0 && n <= |shape|
    decreases n
  {
    if n == 0 then []
    else TintedCells(shape, bw, n - 1) + (if shape[n - 1] == 2 then [Cell((n - 1) % bw, (n - 1) / bw)] else [])
  }

  /** A cell is tinted exactly when it lies in the `bw`-wide grid, below index
      `n`, and the traced shape classifies it as interior (code 2). */
  lemma {:induction false} TintedCellsMembers(shape: seq<int>, bw: int, n: nat, cell: Cell)
    requires bw > 0 && n <= |shape|
    ensures cell in TintedCells(shape, bw, n) <==>
      0 <= cell.x < bw && 0 <= cell.y && cell.y * bw + cell.x < n && shape[cell.y * bw + cell.x] == 2
  {
    if n > 0 {
      var ii := n - 1;
      TintedCellsMembers(shape, bw, ii, cell);
      var last := Cell(ii % bw, ii / bw);
      assert TintedCells(shape, bw, n) == TintedCells(shape, bw, ii) + (if shape[ii] == 2 then [last] else []);
      DivModSplit(ii, bw);
      if 0 <= cell.x < bw && 0 <= cell.y && cell.y * bw + cell.x == ii {
        DivModOf(ii, bw, cell.y, cell.x);
        assert cell == last;
      }
    }
  }
}
