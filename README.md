# jquery.square grid packer, modelled in Dafny

jquery.square lays out the boxes of a container on a square grid. Each box's
class attribute names its span in cells (`square_2_3` is 2 cells wide and 3
high). `setSize` gives every box its pixel size. `setPosition` places the
boxes in document order on an occupancy matrix of grid cells. For each box it:

- finds the first free cell;
- wraps to the next row if the box overflows the container there;
- walks the scan order until the box's whole rectangle is free;
- marks that rectangle taken;
- sets the box's pixel offset and raises the container height.

This project models that core and proves what it guarantees:

- the search finds the first fit;
- no two boxes share a cell, and so, with a gutter that is not negative, none overlap on screen;
- the matrix is the union of the boxes' rectangles, and its size is the sum of their areas;
- every box sits at column 0 or where it fits;
- the container height is the lowest bottom edge;
- the class-name parser picks the first token that decides the span, and reads back every span written in the class-name format;
- the same boxes always get the same layout.

Modules, one per file:

- `Geometry` (`geometry.dfy`): the cell-to-pixel formulas and the row-overflow test `checkSize`.
  The resolved cell width, cell height and gutter, plus the container's outer
  width, are one `CellGeometry` value.
- `Occupancy` (`occupancy.dfy`): the matrix as the set of taken cells, `matrixCheck`,
  and the marking loop.
- `Packer` (`packer.dfy`): `blankMatrix` and the per-box search loop of `setPosition`.
  The scan order is specified by ghost predicates:
  - `Reach`: a column is reached before the row wraps;
  - `OnScan`: a position lies on the scan from a start;
  - `BlockedBefore`: every earlier position on the scan overlaps a taken cell;
  - `FirstFit`: the first position on the scan where the box fits.
- `Scales` (`scales.dfy`): `getScale`, with `split`, `match` and unary `+` on a literal separator.
- `Layout` (`layout.dfy`): `setSize`, the per-box step of `setPosition`, and the whole pass.

Both search loops terminate because the matrix is finite. The termination
measure is a ghost bound above every taken cell's coordinates.

## Model

| member | source | states |
|---|---|---|
| Geometry.CheckSize | src/jquery.square.ts:312-317 | A box overflows at column x exactly when its left offset, its width and one trailing gutter together exceed the container's outer width. |
| Geometry.BoxWidth | src/jquery.square.ts:145 | The pixel width of a box: sx cells plus the sx - 1 gutters between them. It has no contract of its own; RightEdge and BoxFillsColumns state what it means. |
| Geometry.BoxHeight | src/jquery.square.ts:146 | The pixel height of a box: sy cells plus the sy - 1 gutters between them. It has no contract of its own; BottomEdge and BoxFillsRows state what it means. |
| Geometry.Left | src/jquery.square.ts:205 | The left offset of column x: a leading gutter, then x cells each followed by a gutter. Its meaning is stated by RightEdge, BoxFillsColumns and ColumnsApart. |
| Geometry.Top | src/jquery.square.ts:206 | The top offset of row y: a leading gutter, then y cells each followed by a gutter. Its meaning is stated by BottomEdge, BoxFillsRows and RowsApart. |
| Geometry.Bottom | src/jquery.square.ts:214-217 | The lowest pixel a box in row y needs, its bottom gutter included, is exactly where row y + sy begins. |
| Geometry.RightEdge | src/jquery.square.ts:312-317 | The left offset plus the box width is (width + space) * (x + sx). |
| Geometry.BottomEdge | src/jquery.square.ts:204-217 | The top offset plus the box height is (height + space) * (y + sy). |
| Geometry.CheckSizeMonotone | src/jquery.square.ts:312-317 | When a cell is at least as wide as a negative gutter, a column that overflows makes every later column overflow. |
| Geometry.ColumnsApart | src/jquery.square.ts:204-207 | Boxes in cell-disjoint columns keep at least one gutter between them horizontally on screen. |
| Geometry.RowsApart | src/jquery.square.ts:204-207 | Boxes in cell-disjoint rows keep at least one gutter between them vertically on screen. |
| Occupancy.OverlapsUnit | src/jquery.square.ts:292-294 | For the 1x1 probe, overlapping the matrix means exactly that the probed cell is taken. |
| Occupancy.MatrixCheck | src/jquery.square.ts:258-281 | The result is true exactly when some cell of the sx by sy rectangle at (x, y) is taken, and false on an empty matrix. |
| Occupancy.BlockSize | src/jquery.square.ts:195-202 | The rectangle the marking loop sets has exactly w * h cells. |
| Occupancy.Mark | src/jquery.square.ts:195-202 | The new matrix is the old one plus exactly the box's rectangle; when that rectangle was free, the matrix grows by sx * sy cells. |
| Packer.Next | src/jquery.square.ts:187-193 | One search step moves strictly forward in row-major order. |
| Packer.Entry | src/jquery.square.ts:182-185 | The search starts no earlier than the blank cell, at column 0 or at a column where the box does not overflow. |
| Packer.OnScanFits | src/jquery.square.ts:182-193 | Every position on a search is no earlier than its start, and lies at column 0 or where the box does not overflow. |
| Packer.StepPastBlocked | src/jquery.square.ts:187-193 | Stepping past a blocked position keeps the position on the scan, with everything before it blocked. |
| Packer.FirstFitUnique | src/jquery.square.ts:187-193 | The first fit of a scan is unique, so the scan specification fixes the search's result. |
| Packer.BlankMatrix | src/jquery.square.ts:289-303 | The result is the first fit of the 1x1 probe on the scan from (0, 0). |
| Packer.FirstFreeCell | src/jquery.square.ts:289-303 | The first fit of the 1x1 probe is a free cell; every cell of every earlier row up to that row's wrap, and every cell to its left in its own row, is taken. |
| Packer.PlaceBox | src/jquery.square.ts:177-193 | The box lands on the first fit of the scan from its entry cell: its rectangle is free, it is not before the blank cell, and it is at column 0 or where it does not overflow. |
| Packer.TooWideBox | src/jquery.square.ts:182-193 | When a cell is at least as wide as a negative gutter, a box that overflows even at column 0 still lands, at column 0 of a row below the blank cell's row. |
| Scales.IndexFrom | src/jquery.square.ts:237 | The result is the first occurrence of the separator at or after the given index, or none when there is none. |
| Scales.Split | src/jquery.square.ts:235 | Splitting on a non-empty separator gives at least one piece. |
| Scales.SplitJoin | src/jquery.square.ts:235-239 | Splitting on a non-empty separator loses nothing: joining the pieces gives back the string. |
| Scales.SplitPiecesClean | src/jquery.square.ts:235-239 | No piece of a split on a non-empty separator contains the separator. |
| Scales.SplitPair | src/jquery.square.ts:238 | Two pieces free of a one-character separator, joined by it, split back into exactly those two pieces. |
| Scales.SplitTriple | src/jquery.square.ts:238-239 | Three pieces free of a one-character separator, joined by it, split back into exactly those three pieces. |
| Scales.ToNumber | src/jquery.square.ts:238-239 | Unary `+` on a field: the empty string reads as 0, and every non-empty string of digits without a leading zero reads as a number, whose numeral is that string. |
| Scales.CanonicalDigits | src/jquery.square.ts:238-239 | A numeral without leading zeros has a positive value and is the printed form of that value. |
| Scales.DigitsRoundTrip | src/jquery.square.ts:238-239 | Printing a number and reading it back with unary `+` gives the number; the numeral is non-empty, all digits, and has no leading zero. |
| Scales.DigitsFree | src/jquery.square.ts:237-239 | A numeral contains neither a non-digit separator nor a space. |
| Scales.Contains | src/jquery.square.ts:237 | `match` with the separator: the token holds an occurrence of it. Its meaning is stated by IndexFrom. |
| Scales.Field | src/jquery.square.ts:238-239 | Unary `+` on field i of the split token, with a missing field (`undefined`) read as NaN. |
| Scales.Truthy | src/jquery.square.ts:240-241 | The `if(xNum)` and `if(yNum)` tests: the number is defined and not 0. |
| Scales.TokenScale | src/jquery.square.ts:237-243 | A token that decides contains the separator and splits into at least two fields. |
| Scales.TokenScaleDecides | src/jquery.square.ts:237-243 | A token decides exactly when it contains the separator and its second field is a non-zero number. The width is that number. The height is the third field when that is non-zero, and the width otherwise. |
| Scales.TokenRoundTrip | src/jquery.square.ts:237-243 | For every prefix without the separator and every width n >= 1, prefix + sep + n gives an n x n span, and prefix + sep + n + sep + m gives n x m, or n x n when m is 0. |
| Scales.FirstScaleFromToken | src/jquery.square.ts:235-246 | The scale is {1, 1} or the scale some token of the class list gives. |
| Scales.FirstScaleIsFirstDeciding | src/jquery.square.ts:235-246 | With no deciding token the scale is {1, 1}; otherwise the first deciding token wins. |
| Scales.GetScale | src/jquery.square.ts:233-247 | The early-returning loop over the class tokens returns the scale that the specification ScaleOf gives. |
| Scales.SingleToken | src/jquery.square.ts:235-246 | A class attribute without a space is one token: its scale is that token's, or {1, 1} when the token does not decide. |
| Scales.ClassRoundTrip | src/jquery.square.ts:233-247 | A class attribute holding one class name in the format prefix + sep + n, optionally + sep + m, with no space and n >= 1, gets the n x n or n x m span (n x n when m is 0). |
| Scales.ScaleExampleSquare | src/jquery.square.ts:238-242 | "box_3" gives a 3x3 span. |
| Scales.ScaleExampleTall | src/jquery.square.ts:238-241 | "box_2_4" gives a 2x4 span. |
| Scales.ScaleExampleZeroHeight | src/jquery.square.ts:239-242 | "box_2_0" gives a 2x2 span, because a zero height is not a height. |
| Scales.ScaleExampleDefault | src/jquery.square.ts:246 | "box" gives the 1x1 span. |
| Scales.ScaleExampleSkip | src/jquery.square.ts:236-244 | In "box box_x box_3", the tokens that do not decide are skipped and "box_3" gives 3x3. |
| Layout.InOccupied | src/jquery.square.ts:195-202 | A cell is taken after the marking loops exactly when it lies in some placed box's rectangle. |
| Layout.ApartDisjoint | src/jquery.square.ts:187-202 | Two boxes are side by side or one above the other exactly when their rectangles share no cell. |
| Layout.FreeIsApart | src/jquery.square.ts:187-193 | A rectangle free of all taken cells is apart from every placed box. |
| Layout.OccupiedArea | src/jquery.square.ts:195-202 | Pairwise-apart boxes take exactly as many cells as their areas add up to. |
| Layout.PixelOffset | src/jquery.square.ts:204-207 | A box's offset is the left offset of its column and the top offset of its row. It is never left of or above the leading gutter, as long as a cell is not narrower or lower than a negative gutter. |
| Layout.ContainerHeight | src/jquery.square.ts:214-217 | The running maximum of the boxes' bottom edges, starting from 0, is never negative. |
| Layout.ContainerHeightIsLowestBottom | src/jquery.square.ts:173-217 | The container height is 0 with no boxes, is never negative, is at least every box's bottom edge plus its gutter, and is 0 or equal to one of those edges. |
| Layout.SetSize | src/jquery.square.ts:143-148 | Every box is sized sx cells plus sx - 1 gutters wide and sy cells plus sy - 1 gutters high, for the scale its class names. |
| Layout.BoxFillsColumns | src/jquery.square.ts:145 | A box at column x, with its trailing gutter, ends exactly where column x + sx begins. |
| Layout.BoxFillsRows | src/jquery.square.ts:146 | A box at row y, with its trailing gutter, ends exactly where row y + sy begins. |
| Layout.ApartOnScreen | src/jquery.square.ts:204-207 | When cells are not narrower or lower than a negative gutter, boxes apart on the grid are separated on screen by at least one gutter. |
| Layout.Place | src/jquery.square.ts:176-217 | The per-box step of the pass. The blank cell is the 1x1 first fit. The box lands on its first fit from the entry cell, at column 0 or where it fits. The matrix gains exactly its rectangle. The offset is its cell's pixel position. The height rises to its bottom edge if that is lower. |
| Layout.SetPosition | src/jquery.square.ts:169-225 | Every box sits where the packer's rules put it given the boxes before it, and no two boxes share a cell. The offsets are the cells' pixel positions. The matrix is the union of the rectangles, and its size is the sum of their areas. The height is the container height over all boxes. |
| Layout.PackedDetermined | src/jquery.square.ts:176-202 | Two packings of the same boxes by the packer's rules agree on every box's cell and on every search's first free cell, so the layout depends only on the boxes and the geometry. |
| Layout.WrapExample | src/jquery.square.ts:177-193 | With 100-pixel cells, no gutter, a 300-pixel container and row 0 full, the first free cell and the cell a 2x1 box lands on are both column 0 of row 1. |
| Layout.WrapFirstFree | src/jquery.square.ts:289-303 | In that example the 1x1 probe passes the three taken cells of row 0, wraps, and first fits at column 0 of row 1. |
| Layout.WrapLanding | src/jquery.square.ts:182-193 | In that example the 2x1 box does not wrap at column 0 of row 1 and fits there. |
| Layout.RowFree | src/jquery.square.ts:258-281 | A rectangle in a row below every taken cell overlaps nothing. |
| Layout.HeightExample | src/jquery.square.ts:214-217 | One 1x1 box in row 0, with 150-pixel cells and a 10-pixel gutter, needs a 170-pixel container. |

## Left out

- Percentage widths and gutters (`calcSize`, src/jquery.square.ts:337-361) are left out. They use floating-point division, `Math.ceil` and the live container width. The model takes the resolved width, height and gutter as integers, so fractional pixel sizes are not modelled.
- The clamping of a box's inner element height (src/jquery.square.ts:150-159) is left out. It depends on DOM measurements.
- The CSS writes and animations (src/jquery.square.ts:148, 208-212, 220-224, 327-330) are left out, along with the speed argument. They are replaced by the numbers they would be given: the sizes, the offsets and the container height.
- The constructor wiring, resize handling and `destroy` (src/jquery.square.ts:47-130, 368-385) are left out. They are window events, timers and jQuery plumbing.
- Option merging through `$.extend` and the `isFloated` test (src/jquery.square.ts:50-62) are left out. They are library calls.
- The selection of the boxes with jQuery (src/jquery.square.ts:53-56) is left out. The boxes' class attributes are given as a sequence, in document order.
- The container's outer width is read from the page at every `checkSize` call. The model takes it as a parameter that stays fixed during one pass.
- The `if(!matrix)` guard of `matrixCheck` (src/jquery.square.ts:265-267) is not modelled. It is dead code, because the matrix is always an array.
- The array-of-arrays matrix creates its columns on demand (src/jquery.square.ts:197-200). The model keeps the matrix as a set of taken cells, which encodes the same information.
- GetScale: treats the separator as a literal string, while `match` in the source builds a regular expression from it.
- GetScale: reads a field as a number only when it is a string of decimal digits, with the empty string read as 0. Any other field reads as NaN, so its token does not decide and is skipped. JavaScript's unary `+` also accepts surrounding whitespace, a sign, a fraction, an exponent or a hexadecimal prefix. So for "box_+2", "box_2.5" and "box_-1" the model gives {1, 1}, where the source gives {2, 2}, {2.5, 2.5} and {-1, -1}.
- Integers are unbounded. JavaScript numbers are doubles, and their rounding on very large values is not modelled.
