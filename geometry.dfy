/** Integer geometry of the square grid: how a box's cell span becomes a
    pixel size, where a grid cell sits in pixels, and the row-overflow test
    `checkSize`.  The cell width, cell height and gutter are the resolved
    fixed-pixel configuration; `outerWidth` is the container width read
    from the page at the moment of the test. */
module Geometry {

  /** A span in cells: the scale parser never yields less than 1. */
  type Span = n: nat | 1 <= n witness 1

  /** How many grid cells a box covers horizontally (x) and vertically (y). */
  datatype Scale = Scale(x: Span, y: Span)

  /** The 1x1 probe used to look for the first free cell. */
  const Unit: Scale := Scale(1, 1)

  /** Resolved cell geometry of one layout pass plus the container width. */
  datatype CellGeometry = CellGeometry(width: int, height: int, space: int, outerWidth: int)

  /** Pixel width of a box: `sx` cells and the `sx - 1` gutters between them. */
  function BoxWidth(g: CellGeometry, s: Scale): int
  {
    g.width * s.x + g.space * (s.x - 1)
  }

  /** Pixel height of a box: `sy` cells and the `sy - 1` gutters between them. */
  function BoxHeight(g: CellGeometry, s: Scale): int
  {
    g.height * s.y + g.space * (s.y - 1)
  }

  /** Pixel offset of grid column `x`: a leading gutter, then `x` cells each followed by a gutter. */
  function Left(g: CellGeometry, x: int): int
  {
    g.space + g.width * x + g.space * x
  }

  /** Pixel offset of grid row `y`. */
  function Top(g: CellGeometry, y: int): int
  {
    g.space + g.height * y + g.space * y
  }

  /** Lowest pixel a box of scale `s` in row `y` needs in the container,
      its bottom gutter included. */
  function Bottom(g: CellGeometry, y: int, s: Scale): (b: int)
    ensures b == Top(g, y + s.y)
  {
    Top(g, y) + BoxHeight(g, s) + g.space
  }

  /** `checkSize`: a box of scale `s` placed at column `x` overflows the row.
      What the test means: the box's right edge plus the trailing gutter lies
      beyond the container's width. */
  predicate CheckSize(g: CellGeometry, x: int, s: Scale): (overflows: bool)
    ensures overflows <==> Left(g, x) + BoxWidth(g, s) + g.space > g.outerWidth
  {
    var size := g.width * s.x + g.space * (s.x - 1);
    var tsize := g.width * x + g.space * (x + 2) + size;
    tsize > g.outerWidth
  }

  /** The left offset of column `x` plus the width of a box of scale `s` is
      `(width + space) * (x + sx)`. */
  lemma {:induction false} RightEdge(g: CellGeometry, x: int, s: Scale)
    ensures Left(g, x) + BoxWidth(g, s) == (g.width + g.space) * (x + s.x)
  {
    calc {
      Left(g, x) + BoxWidth(g, s);
      g.space + g.width * x + g.space * x + g.width * s.x + g.space * (s.x - 1);
      { assert g.space * (s.x - 1) == g.space * s.x - g.space; }
      g.width * x + g.space * x + g.width * s.x + g.space * s.x;
      { assert (g.width + g.space) * (x + s.x) == g.width * x + g.space * x + g.width * s.x + g.space * s.x; }
      (g.width + g.space) * (x + s.x);
    }
  }

  /** The same for rows: `Top(y) + BoxHeight(s) == (height + space) * (y + sy)`. */
  lemma {:induction false} BottomEdge(g: CellGeometry, y: int, s: Scale)
    ensures Top(g, y) + BoxHeight(g, s) == (g.height + g.space) * (y + s.y)
  {
    calc {
      Top(g, y) + BoxHeight(g, s);
      g.space + g.height * y + g.space * y + g.height * s.y + g.space * (s.y - 1);
      { assert g.space * (s.y - 1) == g.space * s.y - g.space; }
      g.height * y + g.space * y + g.height * s.y + g.space * s.y;
      { assert (g.height + g.space) * (y + s.y) == g.height * y + g.space * y + g.height * s.y + g.space * s.y; }
      (g.height + g.space) * (y + s.y);
    }
  }

  /** With a cell at least as wide as a negative gutter, overflowing is
      monotone in the column: once a column overflows, every later one does. */
  lemma {:induction false} CheckSizeMonotone(g: CellGeometry, x: int, x': int, s: Scale)
    requires g.width + g.space >= 0
    requires x <= x'
    requires CheckSize(g, x, s)
    ensures CheckSize(g, x', s)
  {
    RightEdge(g, x, s);
    RightEdge(g, x', s);
    assert (g.width + g.space) * (x' + s.x) - (g.width + g.space) * (x + s.x)
        == (g.width + g.space) * (x' - x);
    assert (g.width + g.space) * (x' - x) >= 0;
  }

  /** Boxes whose columns do not share a cell keep at least one gutter
      between them on screen: the box at column `x1` spanning `s.x` cells ends,
      with its gutter, no further right than where column `x2` begins. */
  lemma {:induction false} ColumnsApart(g: CellGeometry, x1: int, s: Scale, x2: int)
    requires g.width + g.space >= 0
    requires x1 + s.x <= x2
    ensures Left(g, x1) + BoxWidth(g, s) + g.space <= Left(g, x2)
  {
    RightEdge(g, x1, s);
    assert Left(g, x2) == (g.width + g.space) * x2 + g.space;
    assert (g.width + g.space) * x2 - (g.width + g.space) * (x1 + s.x)
        == (g.width + g.space) * (x2 - (x1 + s.x));
    assert (g.width + g.space) * (x2 - (x1 + s.x)) >= 0;
  }

  /** Rows whose cells do not meet keep at least one gutter between them on screen. */
  lemma {:induction false} RowsApart(g: CellGeometry, y1: int, s: Scale, y2: int)
    requires g.height + g.space >= 0
    requires y1 + s.y <= y2
    ensures Top(g, y1) + BoxHeight(g, s) + g.space <= Top(g, y2)
  {
    BottomEdge(g, y1, s);
    assert Top(g, y2) == (g.height + g.space) * y2 + g.space;
    assert (g.height + g.space) * y2 - (g.height + g.space) * (y1 + s.y)
        == (g.height + g.space) * (y2 - (y1 + s.y));
    assert (g.height + g.space) * (y2 - (y1 + s.y)) >= 0;
  }
}
