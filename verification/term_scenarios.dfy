/** The suites of term/term_test.go and term/termtest/termtest_test.go,
    replayed on the model with the test values of term/termtest/termtest.go. */
module TermScenarios {
  import opened Wrappers
  import opened Termbox
  import opened Image
  import opened TermTest
  import opened Term

  /** `termtest.TestCell`: rune 'a' on attributes 1, 1. */
  const TestCell: Cell := Cell('a', 1, 1)

  /** `termtest.TestBar`: '#' for done, ' ' for to do, half done. */
  const TestBar: LoadingBar := LoadingBar('#', ' ', Fraction(1, 2))

  /** A fresh 10 by 20 canvas has 200 cells in 20 rows of 10, and its buffer
      is its rows. */
  lemma NewCanvasScenario()
    ensures var c := NewCanvas(10, 20);
      && |c.base| == 200 && |c.cells| == 20 && c.cells[0].len == 10
      && |Buffer(c)| == 20 && |Buffer(c)[0]| == 10
  {
  }

  /** A 100 by 100 region moved to (100, 100) of a 300 by 400 canvas is a
      100 by 100 canvas. */
  lemma SubCanvasScenario()
    ensures var c := NewCanvas(300, 400); var r := Rect(0, 0, 100, 100).Add(Point(100, 100));
      && Inside(c, r)
      && Bounds(SubCanvas(c, r)).Dx() == 100 && Bounds(SubCanvas(c, r)).Dy() == 100
  {
    var c := NewCanvas(300, 400);
    var r := Rect(0, 0, 100, 100).Add(Point(100, 100));
    InsideFramed(c, r);
  }

  /** The same region holds no cell at column 100 or row 100: the suite's
      writes to every position of the 300 by 400 parent, made through that
      region, leave its rows at the first such position. */
  lemma SubCanvasEdge()
    ensures var c := NewCanvas(300, 400); var r := Rect(0, 0, 100, 100).Add(Point(100, 100));
      && Inside(c, r)
      && Holds(SubCanvas(c, r), Point(99, 99))
      && !Holds(SubCanvas(c, r), Point(100, 0))
      && !Holds(SubCanvas(c, r), Point(0, 100))
  {
    var c := NewCanvas(300, 400);
    var r := Rect(0, 0, 100, 100).Add(Point(100, 100));
    InsideFramed(c, r);
  }

  /** A half-done bar on a 2 by 2 canvas renders two children, one column
      each, and no error. */
  lemma HalfBarScenario()
    ensures var r := BarRender(TestBar, NewCanvas(2, 2));
      && r.err == None && |r.children| == 2
      && r.children[0].canvas.width == 1 && r.children[1].canvas.width == 1
  {
    assert Split(2, Fraction(1, 2)) == 1;
  }

  /** Filling a fresh 20 by 30 canvas with the test cell sets every cell of
      its array. */
  lemma FillScenario()
    ensures var c := NewCanvas(20, 30);
      forall i :: 0 <= i < |c.base| ==> Paint(c, TestCell).base[i] == TestCell
  {
    FillCoversGrid(NewCanvas(20, 30), TestCell);
  }
}
