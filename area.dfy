/** The editing engine of `src/area/functions.js`: copy, paste, cut, clear and
    the selection preview, as methods of an editor object holding the
    clipboard slot, the current layer and the history, writing into batches. */
module Area {
  import opened Pixels
  import opened Scan

  /** A dynamic batch: an accumulator of per-pixel writes anchored at a point,
      with a write extent set once and an eraser flag. */
  class Batch {
    const x: int
    const y: int
    var extent: Option<Bounds>
    var isEraser: bool
    var writes: seq<Write>

    /** `createDynamicBatch`: a fresh, empty, non-eraser batch. */
    constructor (x: int, y: int)
      ensures this.x == x && this.y == y
      ensures extent == None && !isEraser && writes == []
    {
      this.x, this.y := x, y;
      extent, isEraser, writes := None, false, [];
    }

    method ResizeByRect(x: int, y: int, w: int, h: int)
      modifies this`extent
      ensures extent == Some(Bounds(x, y, w, h))
    {
      extent := Some(Bounds(x, y, w, h));
    }

    method DrawPixel(x: int, y: int, color: Color)
      modifies this`writes
      ensures writes == old(writes) + [Paint(x, y, color)]
    {
      writes := writes + [Paint(x, y, color)];
    }

    method ErasePixel(x: int, y: int, color: Color)
      modifies this`writes
      ensures writes == old(writes) + [Erase(x, y, color)]
    {
      writes := writes + [Erase(x, y, color)];
    }

    /** The erase loop of `clearRect` over `[0,w) x [0,h)` at `(ox, oy)`. */
    method EraseRect(getPixelAt: Canvas, ox: int, oy: int, w: nat, h: nat)
      requires writes == []
      modifies this`writes
      ensures writes == Erases(ox, oy, RectScan(getPixelAt, ox, oy, w, w * h))
    {
      var ii := 0;
      while ii < w * h
        invariant 0 <= ii <= w * h
        invariant writes == Erases(ox, oy, RectScan(getPixelAt, ox, oy, w, ii))
      {
        WidthPositive(ii, w, h);
        EraseCell(getPixelAt, ox, oy, w, ii);
        ii := ii + 1;
      }
    }

    /** One iteration of the `clearRect` loop: the pixel at flat index `ii`
        is erased when drawn. */
    method EraseCell(getPixelAt: Canvas, ox: int, oy: int, w: int, ii: nat)
      requires w > 0
      requires writes == Erases(ox, oy, RectScan(getPixelAt, ox, oy, w, ii))
      modifies this`writes
      ensures writes == Erases(ox, oy, RectScan(getPixelAt, ox, oy, w, ii + 1))
    {
      var xx := ii % w;
      var yy := ii / w;
      RectStep(getPixelAt, ox, oy, w, ii, xx, yy);
      var pixel := getPixelAt(ox + xx, oy + yy);
      if pixel.Some? {
        ErasesSnoc(ox, oy, RectScan(getPixelAt, ox, oy, w, ii), Pixel(xx, yy, pixel.value));
        ErasePixel(ox + xx, oy + yy, pixel.value);
      }
    }

    /** The erase loop of `clearByShape`: mask cell `(xx, yy)` is sampled
        and erased at `(ox + xx, oy + yy)`; `count` is the number of erases. */
    method EraseByMask(getPixelAt: Canvas, data: seq<int>, ox: int, oy: int, bw: int) returns (count: int)
      requires bw > 0 && |data| % 4 == 0 && writes == []
      modifies this`writes
      ensures writes == Erases(ox, oy, ShapeScan(getPixelAt, data, ox, oy, bw, |data| / 4))
      ensures count == |writes|
    {
      count := 0;
      var ii := 0;
      while ii < |data|
        invariant 0 <= ii <= |data| && ii % 4 == 0
        invariant writes == Erases(ox, oy, ShapeScan(getPixelAt, data, ox, oy, bw, ii / 4))
        invariant count == |writes|
      {
        var erased := EraseMaskCell(getPixelAt, data, ox, oy, bw, ii);
        if erased {
          count := count + 1;
        }
        ii := ii + 4;
      }
    }

    /** One iteration of the `clearByShape` loop at byte counter `ii`: the
        cell `(xx, yy)` is erased when its alpha is positive and its pixel
        is drawn, and `erased` says whether it was. */
    method EraseMaskCell(getPixelAt: Canvas, data: seq<int>, ox: int, oy: int, bw: int, ii: nat)
      returns (erased: bool)
      requires bw > 0 && |data| % 4 == 0 && ii % 4 == 0 && ii < |data|
      requires writes == Erases(ox, oy, ShapeScan(getPixelAt, data, ox, oy, bw, ii / 4))
      modifies this`writes
      ensures ii + 4 <= |data| && (ii + 4) % 4 == 0
      ensures writes == Erases(ox, oy, ShapeScan(getPixelAt, data, ox, oy, bw, (ii + 4) / 4))
      ensures |writes| == |old(writes)| + (if erased then 1 else 0)
    {
      var idx := ii / 4;
      var xx := idx % bw;
      var yy := idx / bw;
      var px := (yy * bw + xx) * 4;
      ShapeStep(getPixelAt, data, ox, oy, bw, ii, xx, yy);
      erased := false;
      if data[px + 3] > 0 {
        var pixel := getPixelAt(ox + xx, oy + yy);
        if pixel.Some? {
          ErasesSnoc(ox, oy, ShapeScan(getPixelAt, data, ox, oy, bw, idx), Pixel(xx, yy, pixel.value));
          ErasePixel(ox + xx, oy + yy, pixel.value);
          erased := true;
        }
      }
    }

    /** `isEmpty`, taken to mean that the batch holds no write. */
    predicate IsEmpty()
      reads this
    {
      writes == []
    }
  }

  /** A history record: its kind and the batch it undoes. */
  datatype Command = Command(kind: CommandKind, batch: Batch)

  class Editor {
    /** `getPixelAt`. */
    var canvas: Canvas
    /** `getBinaryShape`. */
    var trace: Tracer
    /** The working bounds the tracer classifies. */
    var bounds: Bounds
    /** `clipboard.copy`. */
    var clipboard: Option<Board>
    /** The batches of the current layer. */
    var layer: seq<Batch>
    /** The undo history, appended to by `enqueue`. */
    var history: seq<Command>

    constructor (canvas: Canvas, trace: Tracer, bounds: Bounds)
      ensures this.canvas == canvas && this.trace == trace && this.bounds == bounds
      ensures clipboard == None && layer == [] && history == []
    {
      this.canvas, this.trace, this.bounds := canvas, trace, bounds;
      clipboard, layer, history := None, [], [];
    }

    ghost function Last(): Batch
      reads this
      requires layer != []
    {
      layer[|layer| - 1]
    }

    /** Exactly one batch was added to the layer and recorded as `kind`. */
    ghost predicate Recorded(oldLayer: seq<Batch>, oldHistory: seq<Command>, kind: CommandKind)
      reads this
    {
      |layer| == |oldLayer| + 1 && layer[..|oldLayer|] == oldLayer &&
      history == oldHistory + [Command(kind, layer[|oldLayer|])]
    }

    ghost function HistoryBatches(): set<Batch>
      reads this
    {
      set c | c in history :: c.batch
    }

    /** No record of the history holds an empty batch. */
    ghost predicate NoEmptyEdits()
      reads this, HistoryBatches()
    {
      forall c :: c in history ==> c.batch.writes != []
    }

    /** The outcome of `clearRect` on `sel`: nothing when it erases nothing,
        otherwise one eraser batch at the selection origin, sized by the
        selection, holding the erase writes, on the layer and in the history. */
    ghost predicate Cleared(sel: Selection, oldLayer: seq<Batch>, oldHistory: seq<Command>)
      requires ValidSelection(sel)
      reads this, layer
    {
      if ClearWrites(canvas, sel) == [] then
        layer == oldLayer && history == oldHistory
      else
        Recorded(oldLayer, oldHistory, ClearCommand) &&
        Last().x == sel.x && Last().y == sel.y && Last().isEraser &&
        Last().extent == Some(Bounds(sel.x, sel.y, sel.w - 1, sel.h - 1)) &&
        Last().writes == ClearWrites(canvas, sel)
    }

    /** `copy`: empties the clipboard slot, then fills it by the shape or the
        rectangle of the selection, even with an empty pixel list. */
    method Copy(selection: Selection)
      requires ValidSelection(selection)
      modifies this`clipboard
      ensures clipboard == Some(Board(Some(CopiedPixels(canvas, selection)), selection))
    {
      clipboard := None;
      if selection.shape.Some? {
        CopyByShape(selection);
      } else {
        CopyBySelection(selection);
      }
    }

    /** `copyByShape`: the member cells of the mask whose pixel at
        `(bx + xx, by + yy)` is drawn, mask-relative, in row-major order. */
    method CopyByShape(selection: Selection)
      requires selection.shape.Some? && WellFormedShape(selection.shape.value)
      modifies this`clipboard
      ensures clipboard == Some(Board(Some(ShapeScan(canvas, selection.shape.value.data,
        selection.shape.value.bounds.x, selection.shape.value.bounds.y,
        selection.shape.value.bounds.w, |selection.shape.value.data| / 4)), selection))
    {
      var shape := selection.shape.value;
      var data := shape.data;
      var maskX, maskY := shape.bounds.x, shape.bounds.y;
      var bw := shape.bounds.w;
      var pixels: seq<Pixel> := [];
      var ii := 0;
      while ii < |data|
        invariant 0 <= ii <= |data| && ii % 4 == 0
        invariant pixels == ShapeScan(canvas, data, maskX, maskY, bw, ii / 4)
      {
        var idx := ii / 4;
        var xx := idx % bw;
        var yy := idx / bw;
        var px := (yy * bw + xx) * 4;
        MaskIndex(ii, bw);
        var alpha := data[px + 3];
        if alpha > 0 {
          var pixel := canvas(maskX + xx, maskY + yy);
          if pixel.Some? {
            pixels := pixels + [Pixel(xx, yy, pixel.value)];
          }
        }
        ii := ii + 4;
      }
      clipboard := Some(Board(Some(pixels), selection));
    }

    /** `copyBySelection`: the drawn pixels of `[0,w) x [0,h)` at the
        selection origin, selection-relative, in row-major order. */
    method CopyBySelection(selection: Selection)
      modifies this`clipboard
      ensures clipboard == Some(Board(Some(RectScan(canvas, selection.x, selection.y,
        selection.w, selection.w * selection.h)), selection))
    {
      var x, y := selection.x, selection.y;
      var w, h := selection.w, selection.h;
      var pixels: seq<Pixel> := [];
      var ii := 0;
      while ii < w * h
        invariant 0 <= ii <= w * h
        invariant pixels == RectScan(canvas, x, y, w, ii)
      {
        WidthPositive(ii, w, h);
        var xx := ii % w;
        var yy := ii / w;
        RectStep(canvas, x, y, w, ii, xx, yy);
        var pixel := canvas(x + xx, y + yy);
        if pixel.Some? {
          pixels := pixels + [Pixel(xx, yy, pixel.value)];
        }
        ii := ii + 1;
      }
      clipboard := Some(Board(Some(pixels), selection));
    }

    /** `paste`: a null or empty pixel list changes nothing; otherwise one
        batch at `(x, y)`, sized by the copied selection, paints every entry in
        list order at `(x + p.x, y + p.y)` and is recorded once as a paste. */
    method Paste(x: int, y: int, board: Board)
      modifies this`layer, this`history
      ensures board.pixels == None || board.pixels.value == [] ==>
        layer == old(layer) && history == old(history)
      ensures board.pixels.Some? && board.pixels.value != [] ==>
        Recorded(old(layer), old(history), PasteCommand) && fresh(Last()) &&
        Last().x == x && Last().y == y && !Last().isEraser &&
        Last().extent == Some(Bounds(x, y, board.selection.w - 1, board.selection.h - 1)) &&
        Last().writes == Paints(x, y, board.pixels.value)
      ensures old(NoEmptyEdits()) ==> NoEmptyEdits()
    {
      var pixels := board.pixels;
      var selection := board.selection;
      if pixels == None || |pixels.value| == 0 {
        return;
      }
      var batch: Batch := new Batch(x, y);
      batch.ResizeByRect(x, y, selection.w - 1, selection.h - 1);
      var ii := 0;
      while ii < |pixels.value|
        modifies batch`writes
        invariant 0 <= ii <= |pixels.value|
        invariant batch.writes == Paints(x, y, pixels.value[..ii])
      {
        var pixel := pixels.value[ii];
        batch.DrawPixel(x + pixel.x, y + pixel.y, pixel.color);
        ii := ii + 1;
      }
      assert pixels.value[..ii] == pixels.value;
      layer := layer + [batch];
      history := history + [Command(PasteCommand, batch)];
    }

    /** `cut`: a copy, then, only when it copied something, a `clearRect` of
        the same selection. */
    method Cut(selection: Selection)
      requires ValidSelection(selection)
      modifies this`clipboard, this`layer, this`history
      ensures clipboard == Some(Board(Some(CopiedPixels(canvas, selection)), selection))
      ensures CopiedPixels(canvas, selection) == [] ==>
        layer == old(layer) && history == old(history)
      ensures CopiedPixels(canvas, selection) != [] ==>
        Cleared(selection, old(layer), old(history)) &&
        (ClearWrites(canvas, selection) != [] ==> fresh(Last()))
      ensures old(NoEmptyEdits()) ==> NoEmptyEdits()
    {
      Copy(selection);
      var pixels := clipboard.value.pixels;
      if pixels == None || |pixels.value| == 0 {
        return;
      }
      ClearRect(selection);
    }

    /** `clearRect`: a shape selection is cleared by `ClearByShape`; a
        rectangle has each drawn pixel of `[0,w) x [0,h)` erased, in row-major
        order, and the batch is recorded only when it is not empty. */
    method ClearRect(selection: Selection)
      requires ValidSelection(selection)
      modifies this`layer, this`history
      ensures Cleared(selection, old(layer), old(history))
      ensures ClearWrites(canvas, selection) != [] ==> fresh(Last())
      ensures old(NoEmptyEdits()) ==> NoEmptyEdits()
    {
      var x, y := selection.x, selection.y;
      var w, h := selection.w, selection.h;
      var batch: Batch := new Batch(x, y);
      batch.isEraser := true;
      if selection.shape.Some? {
        // The batch made above is dropped: the shape path makes its own.
        ClearByShape(selection);
        return;
      }
      batch.ResizeByRect(x, y, w as int - 1, h as int - 1);
      batch.EraseRect(canvas, x, y, w, h);
      if batch.IsEmpty() {
        return;
      }
      layer := layer + [batch];
      history := history + [Command(ClearCommand, batch)];
    }

    /** `clearByShape`: each member cell of the mask with a drawn pixel at
        `(x + xx, y + yy)`, the selection origin, is erased; nothing is
        recorded when the erase count stays zero. */
    method ClearByShape(selection: Selection)
      requires selection.shape.Some? && WellFormedShape(selection.shape.value)
      modifies this`layer, this`history
      ensures Cleared(selection, old(layer), old(history))
      ensures ClearWrites(canvas, selection) != [] ==> fresh(Last())
      ensures old(NoEmptyEdits()) ==> NoEmptyEdits()
    {
      var shape := selection.shape.value;
      var data := shape.data;
      var x, y := selection.x, selection.y;
      var w, h := selection.w, selection.h;
      var batch: Batch := new Batch(x, y);
      batch.isEraser := true;
      var bw := shape.bounds.w;
      batch.ResizeByRect(x, y, w as int - 1, h as int - 1);
      var count := batch.EraseByMask(canvas, data, x, y, bw);
      if count <= 0 {
        return;
      }
      layer := layer + [batch];
      history := history + [Command(ClearCommand, batch)];
    }

    /** `getShapeByOffset`: nothing for an undrawn seed or an untraceable
        shape; otherwise a preview at `(x, y)` over the working bounds whose
        tinted cells are those the tracer classifies as interior (code 2). */
    method GetShapeByOffset(x: int, y: int) returns (r: Option<Preview>)
      requires bounds.w > 0
      ensures canvas(x, y).None? ==> r.None?
      ensures canvas(x, y).Some? && trace(x, y, canvas(x, y).value).None? ==> r.None?
      ensures canvas(x, y).Some? && trace(x, y, canvas(x, y).value).Some? ==>
        var shape := trace(x, y, canvas(x, y).value).value;
        r == Some(Preview(x, y, bounds, TintedCells(shape, bounds.w, |shape|)))
    {
      var color := canvas(x, y);
      if color.None? {
        return None;
      }
      var shape := trace(x, y, color.value);
      if shape.None? {
        return None;
      }
      var boundsX, boundsY := bounds.x, bounds.y;
      var bw, bh := bounds.w, bounds.h;
      var cells: seq<Cell> := [];
      var ii := 0;
      while ii < |shape.value|
        invariant 0 <= ii <= |shape.value|
        invariant cells == TintedCells(shape.value, bw, ii)
      {
        var xx := ii % bw;
        var yy := ii / bw;
        DivModSplit(ii, bw);
        if shape.value[yy * bw + xx] == 2 {
          cells := cells + [Cell(xx, yy)];
        }
        ii := ii + 1;
      }
      r := Some(Preview(x, y, Bounds(boundsX, boundsY, bw, bh), cells));
    }
  }
}
