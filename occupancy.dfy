/** The occupancy matrix of one layout pass.  The source keeps it as a sparse
    array of columns, each a sparse array of rows holding `true` for a taken
    cell; here it is the set of taken cells, which is what that array encodes. */
module Occupancy {
  import opened Geometry

  /** A grid cell: column `x`, row `y`. */
  datatype Cell = Cell(x: nat, y: nat)

  /** Cell `c` lies in the `w` by `h` block whose top-left cell is (`x`, `y`). */
  predicate InBlock(c: Cell, x: nat, y: nat, w: nat, h: nat)
  {
    x <= c.x < x + w && y <= c.y < y + h
  }

  /** The cells of the `w` by `h` block at (`x`, `y`). */
  function Block(x: nat, y: nat, w: nat, h: nat): (b: set<Cell>)
    ensures forall c :: c in b <==> InBlock(c, x, y, w, h)
  {
    set i: nat, j: nat | x <= i < x + w && y <= j < y + h :: Cell(i, j)
  }

  /** The cells a box of scale `s` covers when its top-left cell is (`x`, `y`). */
  function Rect(x: nat, y: nat, s: Scale): set<Cell>
  {
    Block(x, y, s.x, s.y)
  }

  /** Some cell of the box's rectangle is already taken. */
  ghost predicate Overlaps(occ: set<Cell>, x: nat, y: nat, s: Scale)
  {
    exists c :: c in occ && InBlock(c, x, y, s.x, s.y)
  }

  /** For the 1x1 probe an overlap is exactly a taken cell. */
  lemma OverlapsUnit(occ: set<Cell>, x: nat, y: nat)
    ensures Overlaps(occ, x, y, Unit) <==> Cell(x, y) in occ
  {
    if Overlaps(occ, x, y, Unit) {
      var c :| c in occ && InBlock(c, x, y, 1, 1);
      assert c == Cell(x, y);
    }
  }

  /** `matrixCheck`: scans the rectangle column by column, row by row, and
      reports whether some cell of it is taken. */
  method MatrixCheck(occ: set<Cell>, x: nat, y: nat, s: Scale) returns (taken: bool)
    ensures taken <==> Overlaps(occ, x, y, s)
    ensures occ == {} ==> !taken
  {
    for i := 0 to s.x
      invariant forall c :: c in occ ==> !InBlock(c, x, y, i, s.y)
    {
      for j := 0 to s.y
        invariant forall c :: c in occ ==> !InBlock(c, x, y, i, s.y) && !InBlock(c, x + i, y, 1, j)
      {
        if Cell(x + i, y + j) in occ {
          return true;
        }
      }
    }
    return false;
  }

  /** A `w` by `h` block has exactly `w * h` cells. */
  lemma {:induction false} BlockSize(x: nat, y: nat, w: nat, h: nat)
    ensures |Block(x, y, w, h)| == w * h
  {
    if w > 0 {
      var left, last := Block(x, y, w - 1, h), Block(x + w - 1, y, 1, h);
      assert |left| == (w - 1) * h by { BlockSize(x, y, w - 1, h); }
      assert |last| == h by { ColumnSize(x + w - 1, y, h); }
      assert Block(x, y, w, h) == left + last && left !! last by { BlockSplit(x, y, w, h); }
      DisjointUnionSize(left, last);
      assert (w - 1) * h + h == w * h;
    } else {
      assert Block(x, y, w, h) == {};
    }
  }

  /** Disjoint sets: the union's size is the sum of the sizes. */
  lemma DisjointUnionSize(a: set<Cell>, b: set<Cell>)
    requires a !! b
    ensures |a + b| == |a| + |b|
  {
  }

  /** A block is the block one column narrower plus its last column. */
  lemma BlockSplit(x: nat, y: nat, w: nat, h: nat)
    requires w > 0
    ensures Block(x, y, w, h) == Block(x, y, w - 1, h) + Block(x + w - 1, y, 1, h)
    ensures Block(x, y, w - 1, h) !! Block(x + w - 1, y, 1, h)
  {
  }

  /** A one-cell-wide block of height `h` has `h` cells. */
  lemma {:induction false} ColumnSize(x: nat, y: nat, h: nat)
    ensures |Block(x, y, 1, h)| == h
  {
    if h > 0 {
      ColumnSize(x, y, h - 1);
      assert Block(x, y, 1, h) == Block(x, y, 1, h - 1) + {Cell(x, y + h - 1)};
      assert Cell(x, y + h - 1) !in Block(x, y, 1, h - 1);
    } else {
      assert Block(x, y, 1, h) == {};
    }
  }

  /** The marking loop of `setPosition`: sets every cell of the box's rectangle.
      Exactly the rectangle is added and nothing else changes; when the
      rectangle was free, the matrix grows by the box's area `sx * sy`. */
  method Mark(occ: set<Cell>, x: nat, y: nat, s: Scale) returns (marked: set<Cell>)
    ensures marked == occ + Rect(x, y, s)
    ensures !Overlaps(occ, x, y, s) ==> |marked| == |occ| + s.x * s.y
  {
    marked := occ;
    for i := 0 to s.x
      invariant marked == occ + Block(x, y, i, s.y)
    {
      for j := 0 to s.y
        invariant marked == occ + Block(x, y, i, s.y) + Block(x + i, y, 1, j)
      {
        marked := marked + {Cell(x + i, y + j)};
        assert Block(x + i, y, 1, j + 1) == Block(x + i, y, 1, j) + {Cell(x + i, y + j)};
      }
      assert Block(x, y, i + 1, s.y) == Block(x, y, i, s.y) + Block(x + i, y, 1, s.y);
    }
    if !Overlaps(occ, x, y, s) {
      BlockSize(x, y, s.x, s.y);
      assert occ !! Rect(x, y, s);
    }
  }
}
