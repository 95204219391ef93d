/** Data model of the selection-scoped pixel editing engine: colors, the
    canvas query, selections with their optional masks, clipboard entries,
    batch writes and history kinds. */
module Pixels {

  datatype Option<T> = None | Some(value: T)

  /** A drawn color; its channels are carried, never interpreted. */
  datatype Color = Rgba(r: int, g: int, b: int, a: int)

  /** `getPixelAt`: the color at an absolute canvas coordinate, or None for
      an undrawn or out-of-range coordinate. */
  type Canvas = (int, int) -> Option<Color>

  /** `getBinaryShape`: the boundary tracer, giving one classification code
      per cell of the working bounds, or None when no region encloses the seed. */
  type Tracer = (int, int, Color) -> Option<seq<int>>

  datatype Bounds = Bounds(x: int, y: int, w: int, h: int)

  /** A mask: four bytes per cell, row-major over `bounds`, the fourth byte
      of each group being the alpha that marks membership when positive. */
  datatype Shape = Shape(data: seq<int>, bounds: Bounds)

  /** A selection: its rectangle and, for a shape selection, the mask. */
  datatype Selection = Selection(x: int, y: int, w: nat, h: nat, shape: Option<Shape>)

  /** A clipboard sample, relative to the origin of the selection it came from. */
  datatype Pixel = Pixel(x: int, y: int, color: Color)

  /** What `paste` reads (`clipboard.copy` or any compatible value): the
      pixel list, which may be null, and the selection it was copied from. */
  datatype Board = Board(pixels: Option<seq<Pixel>>, selection: Selection)

  /** One per-pixel write into a batch, at absolute canvas coordinates. */
  datatype Write = Paint(x: int, y: int, color: Color) | Erase(x: int, y: int, color: Color)

  datatype CommandKind = PasteCommand | ClearCommand

  /** A mask-local cell of the selection preview. */
  datatype Cell = Cell(x: int, y: int)

  /** The preview batch of `getShapeByOffset`: its anchor, the working bounds
      it covers and the cells tinted in its buffer, in the order they were filled. */
  datatype Preview = Preview(x: int, y: int, bounds: Bounds, cells: seq<Cell>)

  /** A mask the shape loops can walk: at least one cell per row and whole
      four-byte groups. */
  predicate WellFormedShape(s: Shape)
  {
    s.bounds.w > 0 && |s.data| % 4 == 0
  }

  predicate ValidSelection(sel: Selection)
  {
    sel.shape.Some? ==> WellFormedShape(sel.shape.value)
  }

  /** Position of a sample in row-major scan order over a `w`-wide grid. */
  function RowMajor(p: Pixel, w: int): int
  {
    p.y * w + p.x
  }
}
