/** The two components of term/term.go.  `Fill` paints every cell of the
    canvas it is given; `LoadingBar` hands out two children, the loaded part
    of its canvas to a `Fill` of its fill rune and the rest to a `Fill` of
    its empty rune.  Canvases are the views of module TermTest. */
module Term {
  import opened Wrappers
  import opened Termbox
  import opened Image
  import opened TermTest

  /** The progress of a loading bar, as the exact fraction `num / den`. */
  datatype Fraction = Fraction(num: int, den: int)

  /** A fraction between nothing done and all done. */
  predicate Proper(p: Fraction) {
    0 < p.den && 0 <= p.num <= p.den
  }

  datatype LoadingBar = LoadingBar(fill: char, empty: char, progress: Fraction)

  /** A child component handed out by the term package.  Go's interface is
      open; the only children `LoadingBar` hands out are `Fill`s, so that is
      the only kind modelled. */
  datatype Component = Fill(cell: Cell)

  /** A component together with the canvas it is to render into. */
  datatype Child = Child(canvas: Canvas, component: Component)

  // ---------------------------------------------------------------------
  // Fill

  /** Array slot `i` is shown by one of the first `n` rows of `c`. */
  predicate CoveredBy(c: Canvas, n: int, i: int) {
    exists y :: 0 <= y < n && y < |c.cells| && c.cells[y].off <= i < c.cells[y].off + c.cells[y].len
  }

  predicate Covered(c: Canvas, i: int) {
    CoveredBy(c, |c.cells|, i)
  }

  lemma CoveredByStep(c: Canvas, y: int, i: int)
    requires 0 <= y < |c.cells|
    ensures CoveredBy(c, y + 1, i) <==> CoveredBy(c, y, i) || c.cells[y].off <= i < c.cells[y].off + c.cells[y].len
  {
    if c.cells[y].off <= i < c.cells[y].off + c.cells[y].len {
      assert 0 <= y < y + 1;
    }
  }

  /** Array slot `i` is the slot of some cell of `c`. */
  lemma CoveredCell(c: Canvas, i: int)
    requires Valid(c)
    ensures Covered(c, i) <==> exists p :: Holds(c, p) && Index(c, p) == i
  {
    if Covered(c, i) {
      var y :| 0 <= y < |c.cells| && c.cells[y].off <= i < c.cells[y].off + c.cells[y].len;
      var p := Point(i - c.cells[y].off, y);
      assert Holds(c, p) && Index(c, p) == i;
    }
    if exists p :: Holds(c, p) && Index(c, p) == i {
      var p :| Holds(c, p) && Index(c, p) == i;
      assert c.cells[p.y].off <= i < c.cells[p.y].off + c.cells[p.y].len;
    }
  }

  /** Renders a `Fill` into `view` once the shared array holds `base`: the
      array afterwards, with every slot a row of `view` shows set to `f`. */
  function PaintOver(base: seq<Cell>, view: Canvas, f: Cell): (r: seq<Cell>)
    requires Valid(view) && |base| == |view.base|
    ensures |r| == |base|
    ensures forall p :: Holds(view, p) ==> r[Index(view, p)] == f
  {
    var r := seq(|base|, i requires 0 <= i < |base| => if Covered(view, i) then f else base[i]);
    forall p | Holds(view, p)
      ensures r[Index(view, p)] == f
    {
      CoveredCell(view, Index(view, p));
    }
    r
  }

  /** A slot that is no cell of `view` keeps its value. */
  lemma PaintOverMisses(base: seq<Cell>, view: Canvas, f: Cell, i: int)
    requires Valid(view) && |base| == |view.base| && 0 <= i < |base|
    requires forall p :: Holds(view, p) ==> Index(view, p) != i
    ensures PaintOver(base, view, f)[i] == base[i]
  {
    CoveredCell(view, i);
  }

  /** The canvas after every one of its cells was set to `f`: the reference
      for `Fill.Render`. */
  function Paint(c: Canvas, f: Cell): (r: Canvas)
    requires Valid(c)
    ensures r.cells == c.cells && r.width == c.width && r.height == c.height
    ensures |r.base| == |c.base| && Valid(r)
    ensures forall p :: Holds(c, p) ==> CellAt(r, p) == f
    ensures forall i :: 0 <= i < |c.base| && (forall p :: Holds(c, p) ==> Index(c, p) != i) ==> r.base[i] == c.base[i]
  {
    forall i | 0 <= i < |c.base| && (forall p :: Holds(c, p) ==> Index(c, p) != i)
      ensures PaintOver(c.base, c, f)[i] == c.base[i]
    {
      PaintOverMisses(c.base, c, f, i);
    }
    c.(base := PaintOver(c.base, c, f))
  }

  /** `Fill.Render(c)`: writes the fill cell through every row of the buffer,
      row by row, and returns no children and no error. */
  method FillRender(f: Cell, c: Canvas) returns (painted: Canvas, children: seq<Child>, err: Option<string>)
    requires Valid(c)
    ensures painted == Paint(c, f)
    ensures forall p :: Holds(c, p) ==> CellAt(painted, p) == f
    ensures children == [] && err == None
  {
    var base := c.base;
    var y := 0;
    while y < |c.cells|
      invariant 0 <= y <= |c.cells|
      invariant |base| == |c.base|
      invariant forall i :: 0 <= i < |base| ==> base[i] == if CoveredBy(c, y, i) then f else c.base[i]
    {
      var row := c.cells[y];
      var x := 0;
      while x < row.len
        invariant 0 <= x <= row.len
        invariant |base| == |c.base|
        invariant forall i :: 0 <= i < |base| ==>
          base[i] == if CoveredBy(c, y, i) || row.off <= i < row.off + x then f else c.base[i]
      {
        base := base[row.off + x := f];
        x := x + 1;
      }
      forall i | 0 <= i < |base|
        ensures base[i] == if CoveredBy(c, y + 1, i) then f else c.base[i]
      {
        CoveredByStep(c, y, i);
      }
      y := y + 1;
    }
    painted := c.(base := base);
    children := [];
    err := None;
  }

  /** On a canvas laid out by `NewCanvas`, a fill reaches every slot of the
      array (term/term_test.go:43-50). */
  lemma FillCoversGrid(c: Canvas, f: Cell)
    requires Grid(c)
    ensures forall i :: 0 <= i < |c.base| ==> Paint(c, f).base[i] == f
  {
    GridCells(c);
    forall i | 0 <= i < |c.base|
      ensures Paint(c, f).base[i] == f
    {
      var p := Point(i % c.width, i / c.width);
      assert Holds(c, p) && Index(c, p) == i;
    }
  }

  // ---------------------------------------------------------------------
  // LoadingBar

  /** Multiplying by a positive number keeps order in both directions. */
  lemma MulCancel(q: int, w: int, d: int)
    requires 0 <= q && 0 <= w && 0 < d
    ensures q * d <= w * d ==> q <= w
  {
    if w < q {
      MulMono(w + 1, q, d);
      assert (w + 1) * d == w * d + d;
    }
  }

  /** `int(float64(width) * Progress)`: the number of loaded columns, with
      the product taken exactly and truncated, which for a proper fraction
      lies between 0 and `width`. */
  function Split(width: int, p: Fraction): (k: int)
    requires width >= 0 && Proper(p)
    ensures 0 <= k <= width
    ensures k * p.den <= width * p.num < (k + 1) * p.den
  {
    MulMono(p.num, p.den, width);
    assert p.num * width == width * p.num && p.den * width == width * p.den;
    var k := width * p.num / p.den;
    assert (k + 1) * p.den == k * p.den + p.den;
    MulCancel(k, width, p.den);
    k
  }

  /** The full-height region left of column `k`. */
  function Loaded(c: Canvas, k: int): (s: Canvas)
    requires Framed(c) && 0 <= k <= c.width
    ensures s.base == c.base && Framed(s) && s.width == k && s.height == c.height
    ensures forall p {:trigger Holds(s, p)} {:trigger Holds(c, p)} :: Holds(s, p) <==> Holds(c, p) && p.x < k
    ensures forall p :: Holds(s, p) ==> Index(s, p) == Index(c, p)
  {
    var r := Rect(0, 0, k, c.height);
    assert r == Rectangle(Point(0, 0), Point(k, c.height));
    InsideFramed(c, r);
    var s := SubCanvas(c, r);
    forall p {:trigger Holds(s, p)}
      ensures Holds(s, p) <==> Holds(c, p) && p.x < k
    {
      assert Holds(s, p) <==> 0 <= p.x < k && 0 <= p.y < c.height;
    }
    s
  }

  /** The full-height region from column `k` to the right edge. */
  function Unloaded(c: Canvas, k: int): (s: Canvas)
    requires Framed(c) && 0 <= k <= c.width
    ensures s.base == c.base && Framed(s) && s.width == c.width - k && s.height == c.height
    ensures forall p {:trigger Holds(s, p)} :: Holds(s, p) <==> Holds(c, Point(p.x + k, p.y)) && 0 <= p.x
    ensures forall p {:trigger Holds(s, p)} :: Holds(s, p) ==> Index(s, p) == Index(c, Point(p.x + k, p.y))
  {
    var r := Rect(k, 0, c.width, c.height);
    assert r == Rectangle(Point(k, 0), Point(c.width, c.height));
    InsideFramed(c, r);
    var s := SubCanvas(c, r);
    forall p {:trigger Holds(s, p)}
      ensures Holds(s, p) <==> Holds(c, Point(p.x + k, p.y)) && 0 <= p.x
    {
      assert Holds(s, p) <==> 0 <= p.x < c.width - k && 0 <= p.y < c.height;
    }
    s
  }

  /** What `Render` returns: the children to render next, and the error. */
  datatype Rendered = Rendered(children: seq<Child>, err: Option<string>)

  /** `LoadingBar.Render(c)`: the canvas is cut at column
      `k = Split(Width, Progress)` into the full-height regions left and right
      of it; the left goes to a `Fill` of the fill rune, the right to a
      `Fill` of the empty rune, both on attributes 0.  The two views share
      the parent's array and each cell of the parent is held by exactly one
      of them. */
  function BarRender(l: LoadingBar, c: Canvas): (r: Rendered)
    requires Framed(c) && Proper(l.progress)
    ensures r.err == None && |r.children| == 2
    ensures r.children[0].component == Fill(Cell(l.fill, 0, 0))
    ensures r.children[1].component == Fill(Cell(l.empty, 0, 0))
    ensures r.children[0].canvas == Loaded(c, Split(c.width, l.progress))
    ensures r.children[1].canvas == Unloaded(c, Split(c.width, l.progress))
  {
    var k := Split(c.width, l.progress);
    Rendered([Child(Loaded(c, k), Fill(Cell(l.fill, 0, 0))), Child(Unloaded(c, k), Fill(Cell(l.empty, 0, 0)))], None)
  }

  /** Each cell of the parent is held by exactly one of the two halves. */
  lemma BarPartition(l: LoadingBar, c: Canvas)
    requires Framed(c) && Proper(l.progress)
    ensures var r := BarRender(l, c); var k := Split(c.width, l.progress);
      forall p {:trigger Holds(c, p)} :: Holds(c, p) ==>
        (Holds(r.children[0].canvas, p) <==> p.x < k)
        && (Holds(r.children[1].canvas, Point(p.x - k, p.y)) <==> k <= p.x)
  {
  }

  /** A cell left of the cut and a cell right of it are different slots of
      a grid. */
  lemma LeftNotRight(c: Canvas, k: int, p: Point, q: Point)
    requires Grid(c) && Holds(c, p) && Holds(c, q) && p.x < k <= q.x
    ensures Index(c, p) != Index(c, q)
  {
    assert Index(c, p) == p.y * c.width + p.x;
    assert Index(c, q) == q.y * c.width + q.x;
    RowBefore(c.width, p.x, p.y, q.x, q.y);
    RowBefore(c.width, q.x, q.y, p.x, p.y);
  }

  lemma LeftFilled(c: Canvas, k: int, a: Cell, b: Cell, p: Point)
    requires Grid(c) && 0 <= k <= c.width && Holds(c, p) && p.x < k
    ensures PaintOver(PaintOver(c.base, Loaded(c, k), a), Unloaded(c, k), b)[Index(c, p)] == a
  {
    var u := Unloaded(c, k);
    var first := PaintOver(c.base, Loaded(c, k), a);
    assert Holds(Loaded(c, k), p);
    forall q | Holds(u, q)
      ensures Index(u, q) != Index(c, p)
    {
      LeftNotRight(c, k, p, Point(q.x + k, q.y));
    }
    PaintOverMisses(first, u, b, Index(c, p));
  }

  lemma RightEmptied(c: Canvas, k: int, a: Cell, b: Cell, p: Point)
    requires Framed(c) && 0 <= k <= c.width && Holds(c, p) && k <= p.x
    ensures PaintOver(PaintOver(c.base, Loaded(c, k), a), Unloaded(c, k), b)[Index(c, p)] == b
  {
    var q := Point(p.x - k, p.y);
    assert Point(q.x + k, q.y) == p;
    var u := Unloaded(c, k);
    assert Holds(u, q);
    assert Index(u, q) == Index(c, p);
  }

  /** Rendering a bar's two children in order, the second on the array the
      first left behind, shows the fill rune in every column left of the cut
      and the empty rune in every other column. */
  lemma BarPaints(l: LoadingBar, c: Canvas)
    requires Grid(c) && Proper(l.progress)
    ensures var r := BarRender(l, c); var k := Split(c.width, l.progress);
      var after := PaintOver(PaintOver(c.base, r.children[0].canvas, Cell(l.fill, 0, 0)), r.children[1].canvas, Cell(l.empty, 0, 0));
      forall p {:trigger Holds(c, p)} :: Holds(c, p) ==> after[Index(c, p)] == Cell(if p.x < k then l.fill else l.empty, 0, 0)
  {
    var k := Split(c.width, l.progress);
    forall p {:trigger Holds(c, p)} | Holds(c, p)
      ensures PaintOver(PaintOver(c.base, Loaded(c, k), Cell(l.fill, 0, 0)), Unloaded(c, k), Cell(l.empty, 0, 0))[Index(c, p)]
        == Cell(if p.x < k then l.fill else l.empty, 0, 0)
    {
      if p.x < k {
        LeftFilled(c, k, Cell(l.fill, 0, 0), Cell(l.empty, 0, 0), p);
      } else {
        RightEmptied(c, k, Cell(l.fill, 0, 0), Cell(l.empty, 0, 0), p);
      }
    }
  }
}
