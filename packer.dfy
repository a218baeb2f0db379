/** The grid packer of `setPosition`: boxes are placed in order; each one
    starts its search at the first free cell of the matrix, wraps to the next
    row once if it overflows there, then walks the scan order until its whole
    rectangle is free, and its cells are marked taken. */
module Packer {
  import opened Geometry
  import opened Occupancy

  const Origin: Cell := Cell(0, 0)

  /** Scanning a row for a box of scale `s` from column `x0`, column `c` is
      reached before the row wraps: every column the scan steps onto up to
      `c` passes `checkSize`.  The first column of a scan is always visited. */
  ghost predicate Reach(g: CellGeometry, s: Scale, x0: nat, c: nat)
  {
    x0 <= c && forall k :: x0 < k <= c ==> !CheckSize(g, k, s)
  }

  /** The column a scan from `start` begins row `r` at. */
  function RowStart(start: Cell, r: nat): nat
  {
    if r == start.y then start.x else 0
  }

  /** Cell `p` is on the scan that begins at `start`. */
  ghost predicate OnScan(g: CellGeometry, s: Scale, start: Cell, p: Cell)
  {
    start.y <= p.y && Reach(g, s, RowStart(start, p.y), p.x)
  }

  /** Every position the scan from `start` visits before `p` is blocked:
      the box's rectangle there overlaps a taken cell. */
  ghost predicate BlockedBefore(g: CellGeometry, occ: set<Cell>, s: Scale, start: Cell, p: Cell)
  {
    forall r: nat, c: nat ::
      start.y <= r <= p.y && Reach(g, s, RowStart(start, r), c) && (r == p.y ==> c < p.x)
      ==> Overlaps(occ, c, r, s)
  }

  /** `p` is the first position of the scan from `start` where the box fits. */
  ghost predicate FirstFit(g: CellGeometry, occ: set<Cell>, s: Scale, start: Cell, p: Cell)
  {
    OnScan(g, s, start, p) && BlockedBefore(g, occ, s, start, p) && !Overlaps(occ, p.x, p.y, s)
  }

  /** `p` is not earlier than `q` in row-major order. */
  predicate NotBefore(p: Cell, q: Cell)
  {
    p.y > q.y || (p.y == q.y && p.x >= q.x)
  }

  /** One step of the scan: the next column, or column 0 of the next row
      when the next column overflows. */
  function Next(g: CellGeometry, s: Scale, p: Cell): (q: Cell)
    ensures NotBefore(q, p) && q != p
  {
    if CheckSize(g, p.x + 1, s) then Cell(0, p.y + 1) else Cell(p.x + 1, p.y)
  }

  /** Where the search for a box begins: the blank cell, or the start of the
      next row when the box overflows at the blank cell's column. */
  function Entry(g: CellGeometry, s: Scale, blank: Cell): (e: Cell)
    ensures NotBefore(e, blank)
    ensures e.x == 0 || !CheckSize(g, e.x, s)
  {
    if CheckSize(g, blank.x, s) then Cell(0, blank.y + 1) else blank
  }

  /** A number larger than every coordinate of a taken cell. */
  ghost function Bound(occ: set<Cell>): (b: nat)
    ensures forall c :: c in occ ==> c.x < b && c.y < b
    decreases |occ|
  {
    if occ == {} then 0
    else
      var c :| c in occ;
      var b := Bound(occ - {c});
      if c.x < b && c.y < b then b else b + c.x + c.y + 1
  }

  /** A scan position whose rectangle overlaps lies inside the bound. */
  lemma OverlapWithinBound(occ: set<Cell>, p: Cell, s: Scale)
    requires Overlaps(occ, p.x, p.y, s)
    ensures p.x < Bound(occ) && p.y < Bound(occ)
  {
    var c :| c in occ && InBlock(c, p.x, p.y, s.x, s.y);
  }

  /** A row scan stops at the first column that overflows. */
  lemma ReachStopsAtOverflow(g: CellGeometry, s: Scale, x0: nat, c: nat, k: nat)
    requires Reach(g, s, x0, c) && x0 < k && CheckSize(g, k, s)
    ensures c < k
  {
  }

  /** Every position on a scan is at or after its start, and lies at column 0
      or at a column where the box does not overflow, provided the start does. */
  lemma OnScanFits(g: CellGeometry, s: Scale, start: Cell, p: Cell)
    requires OnScan(g, s, start, p)
    requires start.x == 0 || !CheckSize(g, start.x, s)
    ensures NotBefore(p, start)
    ensures p.x == 0 || !CheckSize(g, p.x, s)
  {
  }

  /** Stepping past a blocked position keeps the scan invariant: the next
      position is on the scan and everything before it is blocked. */
  lemma {:induction false} StepPastBlocked(g: CellGeometry, occ: set<Cell>, s: Scale, start: Cell, p: Cell)
    requires OnScan(g, s, start, p) && BlockedBefore(g, occ, s, start, p)
    requires Overlaps(occ, p.x, p.y, s)
    ensures OnScan(g, s, start, Next(g, s, p)) && BlockedBefore(g, occ, s, start, Next(g, s, p))
  {
    var q := Next(g, s, p);
    forall r: nat, c: nat |
      start.y <= r <= q.y && Reach(g, s, RowStart(start, r), c) && (r == q.y ==> c < q.x)
      ensures Overlaps(occ, c, r, s)
    {
      if r == p.y {
        if q.y != p.y {
          ReachStopsAtOverflow(g, s, RowStart(start, r), c, p.x + 1);
        }
        if c == p.x {
          assert Cell(c, r) == p;
        } else {
          assert c < p.x;
        }
      } else {
        assert r < p.y;
      }
    }
    if q.y != p.y {
      assert Reach(g, s, RowStart(start, q.y), 0);
    } else {
      assert Reach(g, s, RowStart(start, p.y), p.x + 1);
    }
  }

  /** A scan starts on itself with nothing passed yet. */
  lemma ScanStart(g: CellGeometry, occ: set<Cell>, s: Scale, start: Cell)
    ensures OnScan(g, s, start, start) && BlockedBefore(g, occ, s, start, start)
  {
  }

  /** A position the scan passes before reaching `q` is blocked. */
  lemma PassedIsBlocked(g: CellGeometry, occ: set<Cell>, s: Scale, start: Cell, p: Cell, q: Cell)
    requires OnScan(g, s, start, p) && BlockedBefore(g, occ, s, start, q)
    requires NotBefore(q, p) && p != q
    ensures Overlaps(occ, p.x, p.y, s)
  {
  }

  /** The scan determines its result: two first fits from the same start
      are the same cell. */
  lemma FirstFitUnique(g: CellGeometry, occ: set<Cell>, s: Scale, start: Cell, p: Cell, q: Cell)
    requires FirstFit(g, occ, s, start, p) && FirstFit(g, occ, s, start, q)
    ensures p == q
  {
    if p != q {
      if NotBefore(q, p) {
        PassedIsBlocked(g, occ, s, start, p, q);
      } else {
        PassedIsBlocked(g, occ, s, start, q, p);
      }
      assert false;
    }
  }

  /** `blankMatrix`: walks the 1x1 probe in scan order from (0, 0) and stops
      at the first free cell. */
  method BlankMatrix(g: CellGeometry, occ: set<Cell>) returns (pos: Cell)
    ensures FirstFit(g, occ, Unit, Origin, pos)
  {
    pos := Origin;
    var taken := MatrixCheck(occ, pos.x, pos.y, Unit);
    ghost var b := Bound(occ);
    ScanStart(g, occ, Unit, Origin);
    while taken
      invariant OnScan(g, Unit, Origin, pos) && BlockedBefore(g, occ, Unit, Origin, pos)
      invariant taken <==> Overlaps(occ, pos.x, pos.y, Unit)
      decreases b - pos.y, b - pos.x
    {
      OverlapWithinBound(occ, pos, Unit);
      StepPastBlocked(g, occ, Unit, Origin, pos);
      ghost var next := Next(g, Unit, pos);
      pos := Cell(pos.x + 1, pos.y);
      if CheckSize(g, pos.x, Unit) {
        pos := Cell(0, pos.y + 1);
      }
      assert pos == next;
      taken := MatrixCheck(occ, pos.x, pos.y, Unit);
    }
  }

  /** What the first fit of the 1x1 probe is: a free cell such that every
      cell before it is taken, namely the whole of every earlier row up to
      where that row wraps, and the cells to its left in its own row. */
  lemma FirstFreeCell(g: CellGeometry, occ: set<Cell>, pos: Cell)
    requires FirstFit(g, occ, Unit, Origin, pos)
    ensures pos !in occ
    ensures Reach(g, Unit, 0, pos.x)
    ensures forall r: nat, c: nat :: r < pos.y && Reach(g, Unit, 0, c) ==> Cell(c, r) in occ
    ensures forall c: nat :: c < pos.x ==> Cell(c, pos.y) in occ
  {
    OverlapsUnit(occ, pos.x, pos.y);
    forall r: nat, c: nat | (r < pos.y && Reach(g, Unit, 0, c)) || (r == pos.y && c < pos.x)
      ensures Cell(c, r) in occ
    {
      assert Reach(g, Unit, RowStart(Origin, r), c);
      OverlapsUnit(occ, c, r);
    }
  }

  /** The search of `setPosition` for one box: from the blank cell, wrap once
      if the box overflows there, then step along the scan while the box's
      rectangle overlaps a taken cell.  The box lands on a free rectangle, not
      earlier than the blank cell, and at column 0 or where it does not
      overflow. */
  method PlaceBox(g: CellGeometry, occ: set<Cell>, s: Scale, blank: Cell) returns (pos: Cell)
    ensures FirstFit(g, occ, s, Entry(g, s, blank), pos)
    ensures !Overlaps(occ, pos.x, pos.y, s)
    ensures NotBefore(pos, blank)
    ensures pos.x == 0 || !CheckSize(g, pos.x, s)
  {
    pos := blank;
    if CheckSize(g, pos.x, s) {
      pos := Cell(0, pos.y + 1);
    }
    ghost var entry := Entry(g, s, blank);
    assert pos == entry;
    var taken := MatrixCheck(occ, pos.x, pos.y, s);
    ghost var b := Bound(occ);
    ScanStart(g, occ, s, entry);
    while taken
      invariant OnScan(g, s, entry, pos) && BlockedBefore(g, occ, s, entry, pos)
      invariant taken <==> Overlaps(occ, pos.x, pos.y, s)
      decreases b - pos.y, b - pos.x
    {
      OverlapWithinBound(occ, pos, s);
      StepPastBlocked(g, occ, s, entry, pos);
      ghost var next := Next(g, s, pos);
      pos := Cell(pos.x + 1, pos.y);
      if CheckSize(g, pos.x, s) {
        pos := Cell(0, pos.y + 1);
      }
      assert pos == next;
      taken := MatrixCheck(occ, pos.x, pos.y, s);
    }
    OnScanFits(g, s, entry, pos);
  }

  /** A box too wide for the container even at column 0 is still placed, as
      long as a cell is not narrower than a negative gutter is wide: its
      search wraps at once, even from column 0, and every position it then
      tries is at column 0, so it lands at column 0 of a row below the blank
      cell's. */
  lemma TooWideBox(g: CellGeometry, occ: set<Cell>, s: Scale, blank: Cell, pos: Cell)
    requires g.width + g.space >= 0
    requires CheckSize(g, 0, s)
    requires FirstFit(g, occ, s, Entry(g, s, blank), pos)
    ensures pos.x == 0 && pos.y > blank.y
  {
    CheckSizeMonotone(g, 0, blank.x, s);
    assert Entry(g, s, blank) == Cell(0, blank.y + 1);
    if pos.x != 0 {
      CheckSizeMonotone(g, 0, 1, s);
      ReachStopsAtOverflow(g, s, 0, pos.x, 1);
      assert false;
    }
  }
}
