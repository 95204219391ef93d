# Selection-scoped pixel editing: a Dafny model of poxi's area functions

This project models the selection editing engine of the poxi pixel editor,
`src/area/functions.js`. It covers:

- `copy`, and its two paths `copyByShape` and `copyBySelection`, which sample
  the canvas into the clipboard;
- `paste`, which paints a clipboard entry into a new batch and records it;
- `cut`, which copies, then clears only when something was copied;
- `clearRect` and `clearByShape`, which erase a selection into an eraser batch;
- `getShapeByOffset`, which turns a traced region into a selection preview.

Two kinds of selection exist:

- a plain rectangle `(x, y, w, h)`;
- a rectangle plus a mask. The mask holds four bytes per cell, row-major over
  its own bounds `(bx, by, bw, bh)`. A cell is a member when its fourth byte
  (its alpha) is positive.

The model is in three modules:

- `Pixels` (`pixels.dfy`) is the data model: colors, selections, masks,
  clipboard entries and batch writes. The canvas query `getPixelAt` and the
  boundary tracer `getBinaryShape` are values of function type.
- `Scan` (`scan.dfy`) holds what each scan loop computes. `RectScan` is the
  row-major rectangle walk. `ShapeScan` is the walk over the mask's four-byte
  groups. `Paints` and `Erases` are the writes issued to a batch.
  `CopiedPixels` and `ClearWrites` are the operations as functions of canvas
  and selection. `TintedCells` is the preview. The module also proves which
  samples these keep, in which order, and where they write.
- `Area` (`area.dfy`) has the state. `Batch` is a dynamic batch: its anchor,
  its write extent, its eraser flag and its list of writes. `Editor` holds the
  clipboard slot, the current layer's batches and the undo history. `Editor`'s
  methods follow the source's loops one by one. Each is proved against the
  `Scan` functions.

Each clear loop is verified in two parts:

- `EraseRect` and `EraseByMask` hold the loop;
- `EraseCell` and `EraseMaskCell` are the body of one iteration.

The pixels they read and the writes they issue match the source's loops in
`clearRect` and `clearByShape`.

`NoEmptyEdits` is kept by every method that records history. It says that no
history record holds an empty batch: the design never records an edit that
changes nothing.

## Model

| member | source | states |
|---|---|---|
| Area.Editor.Copy | src/area/functions.js:17-25 | The clipboard is always overwritten, even with an empty pixel list. The new entry holds the selection and what `CopiedPixels` keeps: the mask scan for a shape selection, the rectangle scan otherwise. |
| Area.Editor.CopyByShape | src/area/functions.js:31-55 | The loop over byte counter `ii` in steps of 4 stores exactly `ShapeScan` of the mask at the mask origin `(bx, by)`. Its invariant ties each step to the next group of the scan. |
| Area.Editor.CopyBySelection | src/area/functions.js:61-78 | The loop over `ii < w * h` stores exactly `RectScan` of `[0,w) x [0,h)` at the selection origin. |
| Area.Editor.Paste | src/area/functions.js:86-105 | A null or empty pixel list leaves layer and history unchanged. Otherwise there is exactly one new batch anchored at `(x, y)`: not an eraser, extent `(x, y, w-1, h-1)` from the copied selection, holding one paint per entry in list order at `(x + p.x, y + p.y)`. It is added to the layer and recorded once as a paste. No empty edit is ever recorded. |
| Area.Editor.Cut | src/area/functions.js:111-117 | The clipboard gets the copy. When nothing was copied, layer and history are unchanged. Otherwise the outcome is that of `clearRect` on the same selection. |
| Area.Editor.ClearRect | src/area/functions.js:123-152 | The outcome is `Cleared`. If `ClearWrites` is empty, nothing changes. Otherwise exactly one fresh eraser batch at the selection origin, sized `(w-1, h-1)`, holds those erases; it is on the layer and recorded once as a clear. A shape selection is delegated to `ClearByShape`. |
| Area.Editor.ClearByShape | src/area/functions.js:159-192 | The same outcome for the shape path. An erase count of zero records nothing. |
| Area.Batch.EraseRect | src/area/functions.js:139-145 | The writes are the erases of every drawn pixel of `[0,w) x [0,h)`, each at `(x + xx, y + yy)`, in row-major order. |
| Area.Batch.EraseCell | src/area/functions.js:140-144 | One iteration extends the writes from the scan of the first `ii` indices to the scan of the first `ii + 1`. |
| Area.Batch.EraseByMask | src/area/functions.js:173-185 | The writes erase, at `(x + xx, y + yy)`, every member cell whose pixel at that point is drawn. `count` equals the number of writes. |
| Area.Batch.EraseMaskCell | src/area/functions.js:175-184 | One iteration extends the writes by the erase of cell `(xx, yy)` when its alpha is positive and its pixel drawn. `erased` reports whether it was. |
| Area.Editor.GetShapeByOffset | src/area/functions.js:199-229 | An undrawn seed gives no preview, and so does an untraceable shape. Otherwise the preview is anchored at `(x, y)`, covers the working bounds, and tints the cells the tracer classifies as code 2. |
| Scan.MaskIndex | src/area/functions.js:38-42 | The recomputed index `px = (yy * bw + xx) * 4` equals the byte counter `ii`, so the alpha tested is `data[ii + 3]`. |
| Scan.ShapeStep | src/area/functions.js:174-184 | One iteration of a mask loop: `px == ii`, the next group index is `ii/4 + 1`, and the scan grows by at most the sample of cell `(xx, yy)`. |
| Scan.RectStep | src/area/functions.js:65-72 | One iteration of a rectangle loop grows the scan by the pixel at `(ox + ii % w, oy + ii / w)` when it is drawn. |
| Scan.RectCellMembers | src/area/functions.js:66-69 | Flat index `ii` yields a sample exactly when it is the drawn pixel of the grid cell whose row-major index is `ii`. |
| Scan.RectScanMembers | src/area/functions.js:65-73 | After `n` iterations a sample is kept exactly when it lies in the `w`-wide grid, its row-major index is below `n`, and it is drawn in its color. |
| Scan.RectScanOrdered | src/area/functions.js:65-73 | The samples are strictly ascending in row-major order. |
| Scan.RectCopyMembers | src/area/functions.js:61-78 | `copyBySelection` keeps exactly the drawn pixels of `[0,w) x [0,h)`, relative to the selection origin, with their colors. |
| Scan.RectCopyOrdered | src/area/functions.js:61-78 | The pixel list of `copyBySelection` is in row-major order and inside the rectangle. |
| Scan.RectScanDense | src/area/functions.js:65-73 | Over a fully drawn grid the scan has one sample per index: sample `i` is at `(i % w, i / w)`, with that pixel's color. |
| Scan.ShapeCellMembers | src/area/functions.js:38-49 | Group `idx` yields a sample exactly when its cell is a member of the mask and its pixel is drawn. |
| Scan.ShapeScanMembers | src/area/functions.js:37-50 | After `k` groups a sample is kept exactly when it is a member cell below index `k` whose pixel at the origin is drawn in its color. |
| Scan.ShapeScanOrdered | src/area/functions.js:37-50 | The mask scan is in row-major order, each sample inside the `bw`-wide grid. |
| Scan.ShapeCopyMembers | src/area/functions.js:31-55 | `copyByShape` keeps exactly the member cells whose pixel at `(bx + xx, by + yy)` is drawn. Coordinates are mask-relative. When the mask has `bw * bh` cells, every kept cell lies inside it. |
| Scan.PaintsMembers | src/area/functions.js:96-100 | A paint is issued exactly for a clipboard entry, at the entry moved by the paste origin. |
| Scan.ErasesMembers | src/area/functions.js:144 | An erase is issued exactly for a sampled pixel, at that pixel moved by the selection origin. |
| Scan.CopyPasteMembers | src/area/functions.js:61-105 | Copying a rectangle and pasting at `(x2, y2)` paints exactly the drawn pixels of the rectangle, each moved by the same offset and keeping its color. |
| Scan.CopyPasteRoundTrip | src/area/functions.js:61-105 | Over a rectangle with no undrawn pixel, copy then paste gives `w * h` paints. Paint `ii` is at `(x2 + ii % w, y2 + ii / w)` with the source color: the pattern is reproduced in row-major order. |
| Scan.ClearRectErases | src/area/functions.js:135-145 | The rectangle clear erases exactly the drawn pixels of the rectangle, at their own position and with their own color. |
| Scan.ClearShapeErases | src/area/functions.js:174-185 | The shape clear erases exactly the drawn pixels at `(x + xx, y + yy)` whose mask cell `(xx, yy)` is a member. |
| Scan.ClearErasesCopy | src/area/functions.js:111-192 | For a rectangle, and for a mask anchored at the selection origin, the clear erases precisely what the copy keeps. So the emptiness guard of `cut` agrees with the clear's own guard. |
| Scan.MisalignedShapeClear | src/area/functions.js:180 | A mask whose origin differs from the selection origin can make `copy` keep a pixel that the clear then does not erase. |
| Scan.TintedCellsMembers | src/area/functions.js:215-223 | A cell is tinted exactly when it lies in the `bw`-wide grid within the traced shape's length and its code is 2. |

## Left out

- The canvas query `getPixelAt` and the tracer `getBinaryShape` are fields of function type, fixed during each operation. Their own algorithms are not part of this model.
- `createDynamicBatch`, `getCurrentLayer`, `layer.addBatch` and `enqueue` are modelled as a fresh `Batch` and appends to `Editor.layer` and `Editor.history`. Undo and redo replay are not modelled.
- `Batch.IsEmpty` is taken to mean "holds no write". The source's batch class is not part of this model.
- These render-side effects are not modelled: `refreshTexture`, `resizeByMatrixData`, `batch.bounds.update` apart from the preview's bounds, `createCanvasBuffer`, `fillStyle`, `getImageData`, and the selection color with alpha 0.45.
- Area.Editor.GetShapeByOffset: the preview is the list of cells passed to `fillRect`, not the bytes of an offscreen buffer. The method requires a working width `bounds.w > 0`, which a canvas always has. With a zero width the source's `ii % bw` is NaN and nothing is tinted.
- Area.Editor.CopyByShape, Area.Editor.ClearByShape: a mask must have a positive width and whole four-byte groups (`WellFormedShape`). Masks come from RGBA image data, which always has both.
- The int32 truncation `| 0` is the floor here. Every operand is a non-negative index, where the two agree.
- The batch that `clearRect` creates before the shape dispatch is created in the model too. It is then dropped unrecorded, as in the source.
- Area.Editor.ClearByShape: reads and erases at the selection origin `(x + xx, y + yy)`, as the code does. Copy reads at the mask origin `(bx + xx, by + yy)`. The model keeps this difference. See `Scan.ClearErasesCopy` for the aligned case and `Scan.MisalignedShapeClear` for the divergence.
