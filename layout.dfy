/** One layout pass of the plugin: `setSize` gives every box its pixel size
    from its scale, and `setPosition` packs the boxes, in document order, onto
    a fresh occupancy matrix, giving each its pixel offset and the container
    its height.  The jQuery CSS writes and animations are replaced by the
    numbers they would be given. */
module Layout {
  import opened Geometry
  import opened Occupancy
  import opened Packer
  import opened Scales

  /** The pixel offset (`left`, `top`) committed for one box. */
  datatype Offset = Offset(left: int, top: int)

  /** Where a box whose top-left cell is `p` goes on screen: never left of
      or above the leading gutter, as long as a cell is not narrower or lower
      than a negative gutter. */
  function PixelOffset(g: CellGeometry, p: Cell): (o: Offset)
    ensures g.width + g.space >= 0 ==> o.left >= g.space
    ensures g.height + g.space >= 0 ==> o.top >= g.space
  {
    Offset(Left(g, p.x), Top(g, p.y))
  }

  /** The pixel size (`width`, `height`) committed for one box. */
  datatype Size = Size(width: int, height: int)

  /** The scale of every box, read from its class attribute. */
  function ScalesOf(classes: seq<string>, sep: string): (scales: seq<Scale>)
    ensures |scales| == |classes|
    ensures forall i :: 0 <= i < |classes| ==> scales[i] == ScaleOf(classes[i], sep)
  {
    seq(|classes|, i requires 0 <= i < |classes| => ScaleOf(classes[i], sep))
  }

  /** The cells taken once the boxes of `scales` sit at `cells`: the union of
      their rectangles. */
  function Occupied(cells: seq<Cell>, scales: seq<Scale>): set<Cell>
    requires |cells| == |scales|
  {
    if cells == [] then {}
    else
      var n := |cells| - 1;
      Occupied(cells[..n], scales[..n]) + Rect(cells[n].x, cells[n].y, scales[n])
  }

  /** A cell is taken exactly when it lies in some placed box's rectangle. */
  lemma {:induction false} InOccupied(cells: seq<Cell>, scales: seq<Scale>, c: Cell)
    requires |cells| == |scales|
    ensures c in Occupied(cells, scales) <==>
      exists i :: 0 <= i < |cells| && InBlock(c, cells[i].x, cells[i].y, scales[i].x, scales[i].y)
  {
    if cells != [] {
      var n := |cells| - 1;
      InOccupied(cells[..n], scales[..n], c);
      if c in Occupied(cells[..n], scales[..n]) {
        var i :| 0 <= i < n && InBlock(c, cells[..n][i].x, cells[..n][i].y, scales[..n][i].x, scales[..n][i].y);
        assert InBlock(c, cells[i].x, cells[i].y, scales[i].x, scales[i].y);
      }
      if i :| 0 <= i < |cells| && InBlock(c, cells[i].x, cells[i].y, scales[i].x, scales[i].y) {
        if i < n {
          assert InBlock(c, cells[..n][i].x, cells[..n][i].y, scales[..n][i].x, scales[..n][i].y);
        }
      }
    }
  }

  /** The cells the boxes of `scales` cover together, counted box by box. */
  function TotalArea(scales: seq<Scale>): nat
  {
    if scales == [] then 0
    else
      var n := |scales| - 1;
      TotalArea(scales[..n]) + scales[n].x * scales[n].y
  }

  /** Boxes of scale `s` at `p` and of scale `t` at `q` are apart: one lies
      wholly left of, right of, above or below the other. */
  predicate Apart(p: Cell, s: Scale, q: Cell, t: Scale)
  {
    p.x + s.x <= q.x || q.x + t.x <= p.x || p.y + s.y <= q.y || q.y + t.y <= p.y
  }

  /** Being apart is exactly having no cell in common. */
  lemma ApartDisjoint(p: Cell, s: Scale, q: Cell, t: Scale)
    ensures Apart(p, s, q, t) <==> Rect(p.x, p.y, s) !! Rect(q.x, q.y, t)
  {
    if !Apart(p, s, q, t) {
      var c := Cell(if p.x < q.x then q.x else p.x, if p.y < q.y then q.y else p.y);
      assert c in Rect(p.x, p.y, s) && c in Rect(q.x, q.y, t);
    }
  }

  /** A rectangle free of every placed box's cells is apart from each of them. */
  lemma FreeIsApart(cells: seq<Cell>, scales: seq<Scale>, p: Cell, s: Scale)
    requires |cells| == |scales|
    requires !Overlaps(Occupied(cells, scales), p.x, p.y, s)
    ensures forall j :: 0 <= j < |cells| ==> Apart(cells[j], scales[j], p, s)
  {
    forall j | 0 <= j < |cells|
      ensures Apart(cells[j], scales[j], p, s)
    {
      if !Apart(cells[j], scales[j], p, s) {
        ApartDisjoint(cells[j], scales[j], p, s);
        var c :| c in Rect(cells[j].x, cells[j].y, scales[j]) && c in Rect(p.x, p.y, s);
        InOccupied(cells, scales, c);
        assert false;
      }
    }
  }

  /** Boxes that are pairwise apart cover as many cells as their areas add up to. */
  lemma {:induction false} OccupiedArea(cells: seq<Cell>, scales: seq<Scale>)
    requires |cells| == |scales|
    requires forall j, k :: 0 <= j < k < |cells| ==> Apart(cells[j], scales[j], cells[k], scales[k])
    ensures |Occupied(cells, scales)| == TotalArea(scales)
  {
    if cells != [] {
      var n := |cells| - 1;
      var prior, last := Occupied(cells[..n], scales[..n]), Rect(cells[n].x, cells[n].y, scales[n]);
      OccupiedArea(cells[..n], scales[..n]);
      BlockSize(cells[n].x, cells[n].y, scales[n].x, scales[n].y);
      forall c | c in prior
        ensures c !in last
      {
        InOccupied(cells[..n], scales[..n], c);
        var j :| 0 <= j < n && InBlock(c, cells[..n][j].x, cells[..n][j].y, scales[..n][j].x, scales[..n][j].y);
        assert cells[..n][j] == cells[j] && scales[..n][j] == scales[j];
        ApartDisjoint(cells[j], scales[j], cells[n], scales[n]);
        assert c in Rect(cells[j].x, cells[j].y, scales[j]);
      }
      assert |prior + last| == |prior| + |last|;
    }
  }

  /** The container height: the running maximum of the boxes' bottom edges,
      gutter included, starting from 0. */
  function ContainerHeight(g: CellGeometry, cells: seq<Cell>, scales: seq<Scale>): (h: int)
    requires |cells| == |scales|
    ensures h >= 0
  {
    if cells == [] then 0
    else
      var n := |cells| - 1;
      var prior := ContainerHeight(g, cells[..n], scales[..n]);
      var bottom := Bottom(g, cells[n].y, scales[n]);
      if bottom > prior then bottom else prior
  }

  /** The container height is the lowest bottom edge over all boxes, and 0
      when there are no boxes or every bottom edge is above 0. */
  lemma {:induction false} ContainerHeightIsLowestBottom(g: CellGeometry, cells: seq<Cell>, scales: seq<Scale>)
    requires |cells| == |scales|
    ensures cells == [] ==> ContainerHeight(g, cells, scales) == 0
    ensures ContainerHeight(g, cells, scales) >= 0
    ensures forall i :: 0 <= i < |cells| ==> Bottom(g, cells[i].y, scales[i]) <= ContainerHeight(g, cells, scales)
    ensures ContainerHeight(g, cells, scales) == 0
      || exists i :: 0 <= i < |cells| && ContainerHeight(g, cells, scales) == Bottom(g, cells[i].y, scales[i])
  {
    if cells != [] {
      var n := |cells| - 1;
      ContainerHeightIsLowestBottom(g, cells[..n], scales[..n]);
      assert forall i :: 0 <= i < n ==> cells[..n][i] == cells[i] && scales[..n][i] == scales[i];
    }
  }

  /** `setSize`, the size part: every box is `sx` cells and `sx - 1` gutters
      wide and `sy` cells and `sy - 1` gutters high, for its scale. */
  method SetSize(g: CellGeometry, classes: seq<string>, sep: string) returns (sizes: seq<Size>)
    ensures |sizes| == |classes|
    ensures forall i :: 0 <= i < |classes| ==>
      sizes[i] == Size(BoxWidth(g, ScaleOf(classes[i], sep)), BoxHeight(g, ScaleOf(classes[i], sep)))
  {
    ghost var scales := ScalesOf(classes, sep);
    sizes := [];
    for i := 0 to |classes|
      invariant |sizes| == i
      invariant forall k :: 0 <= k < i ==> sizes[k] == Size(BoxWidth(g, scales[k]), BoxHeight(g, scales[k]))
    {
      var scale := GetScale(classes[i], sep);
      var xsize, ysize := BoxWidth(g, scale), BoxHeight(g, scale);
      sizes := sizes + [Size(xsize, ysize)];
    }
  }

  /** A box sized by `setSize` and placed at column `x` ends, with its
      trailing gutter, exactly where column `x + sx` begins. */
  lemma {:induction false} BoxFillsColumns(g: CellGeometry, x: int, s: Scale)
    ensures Left(g, x) + BoxWidth(g, s) + g.space == Left(g, x + s.x)
  {
    RightEdge(g, x, s);
    assert Left(g, x + s.x) == (g.width + g.space) * (x + s.x) + g.space;
  }

  /** A box placed at row `y` ends, with its trailing gutter, where row `y + sy` begins. */
  lemma {:induction false} BoxFillsRows(g: CellGeometry, y: int, s: Scale)
    ensures Top(g, y) + BoxHeight(g, s) + g.space == Top(g, y + s.y)
  {
    BottomEdge(g, y, s);
    assert Top(g, y + s.y) == (g.height + g.space) * (y + s.y) + g.space;
  }

  /** The pixel rectangles of two boxes are separated by at least one gutter,
      side by side or one above the other. */
  predicate PixelsApart(g: CellGeometry, p: Cell, s: Scale, q: Cell, t: Scale)
  {
    Left(g, p.x) + BoxWidth(g, s) + g.space <= Left(g, q.x)
    || Left(g, q.x) + BoxWidth(g, t) + g.space <= Left(g, p.x)
    || Top(g, p.y) + BoxHeight(g, s) + g.space <= Top(g, q.y)
    || Top(g, q.y) + BoxHeight(g, t) + g.space <= Top(g, p.y)
  }

  /** Boxes apart on the grid are apart on screen, gutter included, as long as
      a cell is not narrower or lower than a negative gutter is wide. */
  lemma ApartOnScreen(g: CellGeometry, p: Cell, s: Scale, q: Cell, t: Scale)
    requires g.width + g.space >= 0 && g.height + g.space >= 0
    requires Apart(p, s, q, t)
    ensures PixelsApart(g, p, s, q, t)
  {
    if p.x + s.x <= q.x {
      ColumnsApart(g, p.x, s, q.x);
    } else if q.x + t.x <= p.x {
      ColumnsApart(g, q.x, t, p.x);
    } else if p.y + s.y <= q.y {
      RowsApart(g, p.y, s, q.y);
    } else {
      RowsApart(g, q.y, t, p.y);
    }
  }

  /** Box `k` sits where the packer puts it given the boxes before it: its
      search began at `blanks[k]`, the first free cell over the cells the
      earlier boxes took, and it landed on the first fit of its scan from
      there, not before that free cell, at column 0 or where it does not
      overflow. */
  ghost predicate PlacedAt(g: CellGeometry, cells: seq<Cell>, scales: seq<Scale>, blanks: seq<Cell>, k: nat)
    requires |cells| == |scales| == |blanks| && k < |cells|
  {
    var occ := Occupied(cells[..k], scales[..k]);
    FirstFit(g, occ, Unit, Origin, blanks[k])
    && FirstFit(g, occ, scales[k], Entry(g, scales[k], blanks[k]), cells[k])
    && NotBefore(cells[k], blanks[k])
    && (cells[k].x == 0 || !CheckSize(g, cells[k].x, scales[k]))
  }

  /** Every box sits where the packer puts it. */
  ghost predicate Packed(g: CellGeometry, cells: seq<Cell>, scales: seq<Scale>, blanks: seq<Cell>)
  {
    |cells| == |scales| == |blanks| && forall k :: 0 <= k < |cells| ==> PlacedAt(g, cells, scales, blanks, k)
  }

  /** No two boxes share a cell. */
  predicate PairwiseApart(cells: seq<Cell>, scales: seq<Scale>)
  {
    |cells| == |scales| && forall j, k :: 0 <= j < k < |cells| ==> Apart(cells[j], scales[j], cells[k], scales[k])
  }

  /** Placing one more box by the packer's rules keeps the layout packed. */
  lemma PackedSnoc(g: CellGeometry, cells: seq<Cell>, scales: seq<Scale>, blanks: seq<Cell>, s: Scale, blank: Cell, pos: Cell)
    requires Packed(g, cells, scales, blanks)
    requires FirstFit(g, Occupied(cells, scales), Unit, Origin, blank)
    requires FirstFit(g, Occupied(cells, scales), s, Entry(g, s, blank), pos)
    requires NotBefore(pos, blank) && (pos.x == 0 || !CheckSize(g, pos.x, s))
    ensures Packed(g, cells + [pos], scales + [s], blanks + [blank])
  {
    var cells', scales', blanks' := cells + [pos], scales + [s], blanks + [blank];
    forall k | 0 <= k < |cells'|
      ensures PlacedAt(g, cells', scales', blanks', k)
    {
      assert cells'[..k] == cells[..k] && scales'[..k] == scales[..k];
      if k < |cells| {
        assert PlacedAt(g, cells, scales, blanks, k);
      }
    }
  }

  /** Placing one more box apart from every earlier one keeps the boxes apart. */
  lemma ApartSnoc(cells: seq<Cell>, scales: seq<Scale>, s: Scale, pos: Cell)
    requires |cells| == |scales| && PairwiseApart(cells, scales)
    requires forall j :: 0 <= j < |cells| ==> Apart(cells[j], scales[j], pos, s)
    ensures PairwiseApart(cells + [pos], scales + [s])
  {
  }

  /** The per-box step of `setPosition`: find the first free cell, read the
      box's scale, search from that cell for a free rectangle, mark it taken,
      compute the box's pixel offset and raise the container height to the
      box's bottom edge if that is lower. */
  method Place(g: CellGeometry, matrix: set<Cell>, tHeight: int, cls: string, sep: string)
    returns (matrix': set<Cell>, pos: Cell, offset: Offset, tHeight': int, blank: Cell, scale: Scale)
    ensures scale == ScaleOf(cls, sep)
    ensures FirstFit(g, matrix, Unit, Origin, blank)
    ensures FirstFit(g, matrix, scale, Entry(g, scale, blank), pos)
    ensures NotBefore(pos, blank) && (pos.x == 0 || !CheckSize(g, pos.x, scale))
    ensures matrix' == matrix + Rect(pos.x, pos.y, scale)
    ensures offset == PixelOffset(g, pos)
    ensures var b := Bottom(g, pos.y, scale); tHeight' == if b > tHeight then b else tHeight
  {
    blank := BlankMatrix(g, matrix);
    scale := GetScale(cls, sep);
    var sizey := BoxHeight(g, scale);
    pos := PlaceBox(g, matrix, scale, blank);
    matrix' := Mark(matrix, pos.x, pos.y, scale);
    offset := PixelOffset(g, pos);
    tHeight' := if offset.top + sizey + g.space > tHeight then offset.top + sizey + g.space else tHeight;
  }

  /** `setPosition`: for every box in order, find the first free cell, read the
      box's scale, search from that cell for a free rectangle, mark it taken,
      compute the box's pixel offset and raise the container height.

      Every box sits where the packer's rules put it (`blanks[i]` is where its
      search began), no two boxes share a cell, each box's offset is the
      pixel position of its cell, the final matrix is the union of the boxes'
      rectangles and its size the sum of their areas, and the container height
      is the lowest bottom edge over all boxes. */
  method SetPosition(g: CellGeometry, classes: seq<string>, sep: string)
    returns (cells: seq<Cell>, offsets: seq<Offset>, tHeight: int, matrix: set<Cell>, ghost blanks: seq<Cell>)
    ensures |cells| == |offsets| == |classes|
    ensures Packed(g, cells, ScalesOf(classes, sep), blanks)
    ensures PairwiseApart(cells, ScalesOf(classes, sep))
    ensures forall i :: 0 <= i < |classes| ==> offsets[i] == PixelOffset(g, cells[i])
    ensures matrix == Occupied(cells, ScalesOf(classes, sep))
    ensures |matrix| == TotalArea(ScalesOf(classes, sep))
    ensures tHeight == ContainerHeight(g, cells, ScalesOf(classes, sep))
  {
    ghost var scales := ScalesOf(classes, sep);
    matrix := {};
    cells, offsets, tHeight, blanks := [], [], 0, [];
    for i := 0 to |classes|
      invariant |cells| == |offsets| == i
      invariant Packed(g, cells, scales[..i], blanks)
      invariant PairwiseApart(cells, scales[..i])
      invariant forall k :: 0 <= k < i ==> offsets[k] == PixelOffset(g, cells[k])
      invariant matrix == Occupied(cells, scales[..i])
      invariant tHeight == ContainerHeight(g, cells, scales[..i])
    {
      var pos, offset, blank, scale;
      matrix, pos, offset, tHeight, blank, scale := Place(g, matrix, tHeight, classes[i], sep);
      assert scale == scales[i];
      PlacementStep(g, cells, scales, blanks, blank, pos);
      cells, offsets, blanks := cells + [pos], offsets + [offset], blanks + [blank];
    }
    assert scales[..|classes|] == scales;
    OccupiedArea(cells, scales);
  }

  /** One round of the placement loop keeps its invariant: with box `i` placed
      by the packer's rules over the cells the earlier boxes took, the layout
      stays packed and pairwise apart, the box's rectangle joins the taken
      cells, and the height rises to the box's bottom edge if that is lower. */
  lemma PlacementStep(g: CellGeometry, cells: seq<Cell>, scales: seq<Scale>, blanks: seq<Cell>, blank: Cell, pos: Cell)
    requires |cells| < |scales|
    requires Packed(g, cells, scales[..|cells|], blanks) && PairwiseApart(cells, scales[..|cells|])
    requires FirstFit(g, Occupied(cells, scales[..|cells|]), Unit, Origin, blank)
    requires FirstFit(g, Occupied(cells, scales[..|cells|]), scales[|cells|], Entry(g, scales[|cells|], blank), pos)
    requires NotBefore(pos, blank) && (pos.x == 0 || !CheckSize(g, pos.x, scales[|cells|]))
    ensures var i := |cells|;
      Packed(g, cells + [pos], scales[..i + 1], blanks + [blank])
      && PairwiseApart(cells + [pos], scales[..i + 1])
    ensures var i := |cells|;
      Occupied(cells + [pos], scales[..i + 1]) == Occupied(cells, scales[..i]) + Rect(pos.x, pos.y, scales[i])
    ensures var i, h, b := |cells|, ContainerHeight(g, cells, scales[..|cells|]), Bottom(g, pos.y, scales[|cells|]);
      ContainerHeight(g, cells + [pos], scales[..i + 1]) == if b > h then b else h
  {
    var i, s := |cells|, scales[|cells|];
    PrefixSnoc(scales, i);
    PackedSnoc(g, cells, scales[..i], blanks, s, blank, pos);
    FreeIsApart(cells, scales[..i], pos, s);
    ApartSnoc(cells, scales[..i], s, pos);
    ExtendByOne(g, cells, scales, pos);
  }

  /** The matrix and the container height after one more box: the box's
      rectangle is added, and the height rises to its bottom edge if lower. */
  lemma ExtendByOne(g: CellGeometry, cells: seq<Cell>, scales: seq<Scale>, pos: Cell)
    requires |cells| < |scales|
    ensures var i := |cells|;
      Occupied(cells + [pos], scales[..i + 1]) == Occupied(cells, scales[..i]) + Rect(pos.x, pos.y, scales[i])
    ensures var i, h, b := |cells|, ContainerHeight(g, cells, scales[..|cells|]), Bottom(g, pos.y, scales[|cells|]);
      ContainerHeight(g, cells + [pos], scales[..i + 1]) == if b > h then b else h
  {
    var i := |cells|;
    assert (cells + [pos])[..i] == cells;
    assert scales[..i + 1][..i] == scales[..i];
  }

  /** The packer's rules leave no choice: two packings of the same boxes
      agree on every box's cell and on every search's free cell. */
  lemma {:induction false} PackedDetermined(g: CellGeometry, scales: seq<Scale>,
    cells1: seq<Cell>, blanks1: seq<Cell>, cells2: seq<Cell>, blanks2: seq<Cell>, n: nat)
    requires Packed(g, cells1, scales, blanks1) && Packed(g, cells2, scales, blanks2)
    requires n <= |scales|
    ensures cells1[..n] == cells2[..n] && blanks1[..n] == blanks2[..n]
  {
    if n > 0 {
      var k := n - 1;
      PackedDetermined(g, scales, cells1, blanks1, cells2, blanks2, k);
      assert PlacedAt(g, cells1, scales, blanks1, k) && PlacedAt(g, cells2, scales, blanks2, k);
      var occ := Occupied(cells1[..k], scales[..k]);
      FirstFitUnique(g, occ, Unit, Origin, blanks1[k], blanks2[k]);
      FirstFitUnique(g, occ, scales[k], Entry(g, scales[k], blanks1[k]), cells1[k], cells2[k]);
      PrefixSnoc(cells1, k);
      PrefixSnoc(cells2, k);
      PrefixSnoc(blanks1, k);
      PrefixSnoc(blanks2, k);
    }
  }

  /** Row wrap: on a 300-pixel container of 100-pixel cells without gutters,
      with the three cells of row 0 taken, the first free cell is column 0 of
      row 1, and a 2x1 box placed next lands there too. */
  lemma WrapExample(g: CellGeometry, occ: set<Cell>, blank: Cell, pos: Cell)
    requires g == CellGeometry(100, 100, 0, 300)
    requires occ == {Cell(0, 0), Cell(1, 0), Cell(2, 0)}
    requires FirstFit(g, occ, Unit, Origin, blank)
    requires FirstFit(g, occ, Scale(2, 1), Entry(g, Scale(2, 1), blank), pos)
    ensures blank == Cell(0, 1) && pos == Cell(0, 1)
  {
    WrapFirstFree(g, occ);
    FirstFitUnique(g, occ, Unit, Origin, blank, Cell(0, 1));
    WrapLanding(g, occ);
    FirstFitUnique(g, occ, Scale(2, 1), Cell(0, 1), pos, Cell(0, 1));
  }

  /** The 2x1 box of the wrap example fits at column 0 of row 1, so its
      search does not wrap again and lands where it starts. */
  lemma WrapLanding(g: CellGeometry, occ: set<Cell>)
    requires g == CellGeometry(100, 100, 0, 300)
    requires occ == {Cell(0, 0), Cell(1, 0), Cell(2, 0)}
    ensures Entry(g, Scale(2, 1), Cell(0, 1)) == Cell(0, 1)
    ensures FirstFit(g, occ, Scale(2, 1), Cell(0, 1), Cell(0, 1))
  {
    ScanStart(g, occ, Scale(2, 1), Cell(0, 1));
    assert !Overlaps(occ, 0, 1, Scale(2, 1)) by {
      RowFree(occ, 1, Scale(2, 1));
    }
  }

  /** A rectangle lying in a row below every taken cell is free. */
  lemma RowFree(occ: set<Cell>, y: nat, s: Scale)
    requires forall c :: c in occ ==> c.y < y
    ensures forall x: nat :: !Overlaps(occ, x, y, s)
  {
  }

  /** The first free cell of the wrap example: row 0 is full up to its wrap
      after column 2, so the 1x1 probe lands on column 0 of row 1. */
  lemma WrapFirstFree(g: CellGeometry, occ: set<Cell>)
    requires g == CellGeometry(100, 100, 0, 300)
    requires occ == {Cell(0, 0), Cell(1, 0), Cell(2, 0)}
    ensures FirstFit(g, occ, Unit, Origin, Cell(0, 1))
  {
    forall r: nat, c: nat | 0 <= r <= 1 && Reach(g, Unit, RowStart(Origin, r), c) && (r == 1 ==> c < 0)
      ensures Overlaps(occ, c, r, Unit)
    {
      if c >= 3 {
        ReachStopsAtOverflow(g, Unit, 0, c, 3);
      }
      OverlapsUnit(occ, c, r);
    }
    OverlapsUnit(occ, 0, 1);
  }

  /** Container height: one 1x1 box in row 0, with 150-pixel cells and a
      10-pixel gutter, needs a 170-pixel container. */
  lemma HeightExample(g: CellGeometry)
    requires g.height == 150 && g.space == 10
    ensures ContainerHeight(g, [Cell(0, 0)], [Unit]) == 170
  {
    assert [Cell(0, 0)][..0] == [] && [Unit][..0] == [];
  }

  /** A prefix one longer is the prefix plus the next element. */
  lemma PrefixSnoc<T>(s: seq<T>, i: nat)
    requires i < |s|
    ensures s[..i + 1] == s[..i] + [s[i]]
  {
  }
}
