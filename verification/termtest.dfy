/** The test canvas of term/termtest/termtest.go.

    A Canvas owns (or shares) a flat `Base` array of cells and views it
    through `Cells`, a list of row slices into that array.  Writes go through
    the row slices, so every canvas that shares the array sees them.  Here a
    row slice is an offset and a length into `base`, and a write yields the
    canvas over the new array; another view of the same memory sees the
    write once it is given that new array. */
module TermTest {
  import opened Termbox
  import opened Image

  /** A Go `[]term.Cell` viewing `len` cells of the base array from `off`. */
  datatype Row = Row(off: nat, len: nat)

  datatype Canvas = Canvas(base: seq<Cell>, cells: seq<Row>, width: int, height: int)

  /** Every row slice lies within the base array. */
  predicate Valid(c: Canvas) {
    forall y :: 0 <= y < |c.cells| ==> c.cells[y].off + c.cells[y].len <= |c.base|
  }

  /** `height` rows of `width` cells each. */
  predicate Framed(c: Canvas) {
    && Valid(c)
    && c.width >= 0
    && |c.cells| == c.height
    && forall y :: 0 <= y < |c.cells| ==> c.cells[y].len == c.width
  }

  /** The layout `NewCanvas` builds: row `y` is `Base[y*width : y*width+width]`. */
  predicate Grid(c: Canvas) {
    && Framed(c)
    && |c.base| == c.width * c.height
    && forall y :: 0 <= y < |c.cells| ==> c.cells[y].off == y * c.width
  }

  /** `p` names a cell of `c`: row `p.Y` exists and is longer than `p.X`. */
  predicate Holds(c: Canvas, p: Point) {
    0 <= p.y < |c.cells| && 0 <= p.x < c.cells[p.y].len
  }

  /** Where in the base array the cell at `p` lives. */
  function Index(c: Canvas, p: Point): (i: nat)
    requires Valid(c) && Holds(c, p)
    ensures i < |c.base|
  {
    c.cells[p.y].off + p.x
  }

  function CellAt(c: Canvas, p: Point): Cell
    requires Valid(c) && Holds(c, p)
  {
    c.base[Index(c, p)]
  }

  // ---------------------------------------------------------------------
  // Index arithmetic of the grid layout

  lemma MulMono(a: int, b: int, w: int)
    requires 0 <= a <= b && 0 <= w
    ensures a * w <= b * w
  {
    assert b * w - a * w == (b - a) * w;
  }

  /** A cell of an earlier row lives at a smaller index. */
  lemma RowBefore(w: int, x1: int, y1: int, x2: int, y2: int)
    requires 0 <= x1 < w && 0 <= x2 && 0 <= y1
    ensures y1 < y2 ==> y1 * w + x1 < y2 * w + x2
  {
    if y1 < y2 {
      MulMono(y1 + 1, y2, w);
      assert (y1 + 1) * w == y1 * w + w;
    }
  }

  /** Different cells of a `w`-wide grid live at different indices. */
  lemma GridIndexInjective(w: int, x1: int, y1: int, x2: int, y2: int)
    requires 0 <= x1 < w && 0 <= x2 < w && 0 <= y1 && 0 <= y2
    requires y1 * w + x1 == y2 * w + x2
    ensures x1 == x2 && y1 == y2
  {
    RowBefore(w, x1, y1, x2, y2);
    RowBefore(w, x2, y2, x1, y1);
  }

  /** Every index of the `w*h` array is some cell of the grid. */
  lemma GridIndexOnto(w: int, h: int, i: int)
    requires 0 <= w && 0 <= h && 0 <= i < w * h
    ensures w > 0 && 0 <= i / w < h && 0 <= i % w < w && i == (i / w) * w + i % w
  {
    if w == 0 {
      assert false;
    }
    if i / w >= h {
      assert false;
    }
  }

  lemma GridValid(w: int, h: int, cells: seq<Row>)
    requires 0 <= w && 0 <= h && |cells| == h
    requires forall y :: 0 <= y < h ==> cells[y] == Row(y * w, w)
    ensures forall y :: 0 <= y < h ==> cells[y].off + cells[y].len <= w * h
  {
    forall y | 0 <= y < h
      ensures cells[y].off + cells[y].len <= w * h
    {
      MulMono(y + 1, h, w);
      assert (y + 1) * w == y * w + w;
      assert h * w == w * h;
    }
  }

  /** In a grid, distinct cells are distinct array slots, and every slot is a cell. */
  lemma GridCells(c: Canvas)
    requires Grid(c)
    ensures forall p, q :: Holds(c, p) && Holds(c, q) && Index(c, p) == Index(c, q) ==> p == q
    ensures forall i :: 0 <= i < |c.base| ==> Holds(c, Point(i % c.width, i / c.width)) && Index(c, Point(i % c.width, i / c.width)) == i
  {
    forall p, q | Holds(c, p) && Holds(c, q) && Index(c, p) == Index(c, q)
      ensures p == q
    {
      GridIndexInjective(c.width, p.x, p.y, q.x, q.y);
    }
    forall i | 0 <= i < |c.base|
      ensures Holds(c, Point(i % c.width, i / c.width)) && Index(c, Point(i % c.width, i / c.width)) == i
    {
      GridIndexOnto(c.width, c.height, i);
    }
  }

  // ---------------------------------------------------------------------
  // The operations of termtest.Canvas

  /** `NewCanvas(width, height)`: a zeroed `width*height` array cut into
      `height` rows of `width` cells.  Only non-negative sizes are modelled:
      Go's `make` panics when the product is negative, and otherwise a
      negative size leaves a canvas with no rows. */
  function NewCanvas(width: int, height: int): (c: Canvas)
    requires width >= 0 && height >= 0
    ensures Grid(c) && c.width == width && c.height == height
    ensures |c.base| == width * height && |c.cells| == height
    ensures forall y :: 0 <= y < height ==> c.cells[y].len == width
    ensures forall i :: 0 <= i < |c.base| ==> c.base[i] == ZeroCell
  {
    var cells := seq(height, y requires 0 <= y => Row(y * width, width));
    GridValid(width, height, cells);
    Canvas(seq(width * height, _ => ZeroCell), cells, width, height)
  }

  /** `Buffer()` hands out the row slices themselves: row `y`, column `x` of
      the buffer is the cell at `(x, y)`. */
  function Buffer(c: Canvas): (rows: seq<seq<Cell>>)
    requires Valid(c)
    ensures |rows| == |c.cells|
    ensures forall y :: 0 <= y < |rows| ==> |rows[y]| == c.cells[y].len
    ensures forall y, x :: 0 <= y < |rows| && 0 <= x < |rows[y]| ==> rows[y][x] == CellAt(c, Point(x, y))
  {
    seq(|c.cells|, y requires 0 <= y < |c.cells| => c.base[c.cells[y].off .. c.cells[y].off + c.cells[y].len])
  }

  /** `Rect()`: the rectangle from the origin to `(Width, Height)`. */
  function Bounds(c: Canvas): (r: Rectangle)
    ensures c.width >= 0 && c.height >= 0 ==>
      r.min == Point(0, 0) && r.max == Point(c.width, c.height) && r.Dx() == c.width && r.Dy() == c.height
  {
    Rect(0, 0, c.width, c.height)
  }

  /** `SetCell(pos, cell)`: writes the one array slot row `pos.Y` shows at
      column `pos.X`.  Go panics on a position outside the row slices. */
  function SetCell(c: Canvas, pos: Point, cell: Cell): (r: Canvas)
    requires Valid(c) && Holds(c, pos)
    ensures r.cells == c.cells && r.width == c.width && r.height == c.height && Valid(r)
    ensures |r.base| == |c.base| && r.base[Index(c, pos)] == cell
    ensures forall i :: 0 <= i < |c.base| && i != Index(c, pos) ==> r.base[i] == c.base[i]
  {
    c.(base := c.base[Index(c, pos) := cell])
  }

  /** On a grid, `SetCell` changes the cell at `pos` and no other cell. */
  lemma SetCellOnGrid(c: Canvas, pos: Point, cell: Cell)
    requires Grid(c) && Holds(c, pos)
    ensures Grid(SetCell(c, pos, cell))
    ensures forall q :: Holds(c, q) ==>
      CellAt(SetCell(c, pos, cell), q) == if q == pos then cell else CellAt(c, q)
  {
    GridCells(c);
  }

  /** `r` lies within the rows of `c`, as slicing requires. */
  predicate Inside(c: Canvas, r: Rectangle) {
    && r.WellFormed()
    && 0 <= r.min.x && 0 <= r.min.y && r.max.y <= |c.cells|
    && forall y :: r.min.y <= y < r.max.y ==> r.max.x <= c.cells[y].len
  }

  /** `Canvas(r)`: a view of the region `r` over the same array.  Its row `i`
      is the slice of parent row `r.Min.Y + i` from column `r.Min.X`, `r.Dx()`
      cells long.  Go slices against the row's capacity rather than its
      length; only regions inside the parent's rows are modelled. */
  function SubCanvas(c: Canvas, r: Rectangle): (s: Canvas)
    requires Valid(c) && Inside(c, r)
    ensures s.base == c.base && Framed(s)
    ensures s.width == r.Dx() && s.height == r.Dy()
    ensures Bounds(s).Dx() == r.Dx() && Bounds(s).Dy() == r.Dy()
    ensures forall p {:trigger Holds(s, p)} :: Holds(s, p) <==> 0 <= p.x < r.Dx() && 0 <= p.y < r.Dy()
    ensures forall p {:trigger Holds(s, p)} :: Holds(s, p) ==>
      Holds(c, Point(r.min.x + p.x, r.min.y + p.y)) && Index(s, p) == Index(c, Point(r.min.x + p.x, r.min.y + p.y))
  {
    var rows := seq(r.Dy(), i requires 0 <= i < r.Dy() => Row(c.cells[r.min.y + i].off + r.min.x, r.Dx()));
    Canvas(c.base, rows, r.Dx(), r.Dy())
  }

  /** A write through a sub-canvas of a grid appears in the parent at the
      offset position, and nowhere else. */
  lemma WriteThroughSubCanvas(c: Canvas, r: Rectangle, p: Point, v: Cell)
    requires Grid(c) && Inside(c, r) && Holds(SubCanvas(c, r), p)
    ensures var after := c.(base := SetCell(SubCanvas(c, r), p, v).base);
      forall q :: Holds(c, q) ==> CellAt(after, q) == if q == Point(r.min.x + p.x, r.min.y + p.y) then v else CellAt(c, q)
  {
    var at := Point(r.min.x + p.x, r.min.y + p.y);
    assert SetCell(SubCanvas(c, r), p, v).base == SetCell(c, at, v).base;
    SetCellOnGrid(c, at, v);
  }

  /** A region inside the bounds of a framed canvas may be viewed. */
  lemma InsideFramed(c: Canvas, r: Rectangle)
    requires Framed(c) && r.WellFormed()
    requires 0 <= r.min.x && 0 <= r.min.y && r.max.x <= c.width && r.max.y <= c.height
    ensures Inside(c, r)
  {
  }
}
