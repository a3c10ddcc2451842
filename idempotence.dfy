/**
 * `minimize` applied twice. On a non-empty zone the second call changes
 * nothing:
 *
 * - cropping commutes with `transpose`;
 * - after a `flip`, cropping does not see an earlier crop;
 * - so every cropped image of the minimized zone is a cropped image of the
 *   original zone, and the minimized zone itself is the first of them.
 *
 * The empty zone and the kept margin are where this breaks.
 */
module Idempotence {
  import opened Cells
  import opened Transforms
  import opened Symmetry
  import opened Crop
  import opened Positions
  import opened Canonical

  /** The cell at column `c`, row `r` of `x`, for any whole numbers; clear off the board. */
  predicate At(x: u64, c: int, r: int) {
    0 <= c < 7 && 0 <= r < 7 && Cell(x, Point(c as u8, r as u8))
  }

  lemma AtPoint(x: u64, p: Point)
    requires p.OnBoard()
    ensures At(x, Num8(p.col), Num8(p.row)) == Cell(x, p)
  {
    assert Point((p.col as int) as u8, (p.row as int) as u8) == p;
  }

  /** `flip` reads row `r` from row `6 - r`. */
  lemma FlipAt(x: u64, c: int, r: int)
    ensures At(Flip(x), c, r) == At(x, c, 6 - r)
  {
    hide Cell, Flip;
    if 0 <= c < 7 && 0 <= r < 7 {
      var p := Point(c as u8, (6 - r) as u8);
      FlipCell(x, p);
      assert Point(p.col, 6 - p.row) == Point(c as u8, r as u8);
    }
  }

  /** `transpose` reads column `c`, row `r` from column `r`, row `c`. */
  lemma TransposeAt(x: u64, c: int, r: int)
    ensures At(Transpose(x), c, r) == At(x, r, c)
  {
    hide Cell, Transpose;
    if 0 <= c < 7 && 0 <= r < 7 {
      TransposeCell(x, Point(r as u8, c as u8));
    }
  }

  /** The value of a coordinate or of a shift, as a whole number. */
  function Num8(b: u8): nat {
    b as int
  }

  function Num32(b: u32): nat {
    b as int
  }

  /** `CellAt`, read with whole-number coordinates. */
  lemma CellAtValue(x: u64, col: u32, row: u32, c: int, r: int)
    requires col < 13 && row < 13 && Num32(col) == c && Num32(row) == r
    ensures CellAt(x, col, row) == At(x, c, r)
  {
    hide Cell;
    if col < 7 && row < 7 {
      assert Point(col as u8, row as u8) == Point(c as u8, r as u8);
    }
  }

  lemma SumValue(a: u8, b: u32)
    requires a < 7 && b <= 6
    ensures (a as u32 + b) < 13 && Num32(a as u32 + b) == Num8(a) + Num32(b)
  {
  }

  /** `CropMovesCells`, stated of `Cropped`. */
  lemma CroppedCell(x: u64, p: Point)
    requires p.OnBoard()
    ensures Cell(Cropped(x), p) == CellAt(x, p.col as u32 + ColumnShift(x), p.row as u32 + RowShift(x))
  {
    hide Cell, CellAt, Transpose, RowShift, ColumnShift, CalculateOffset, ShiftDown;
    CroppedIsShift(x);
    CropMovesCells(x, p);
  }

  /** The cropped plane at (`c`, `r`) is the plane at (`c + ColumnShift`, `r + RowShift`). */
  lemma CropAt(x: u64, c: int, r: int)
    requires 0 <= c < 7 && 0 <= r < 7
    ensures At(Cropped(x), c, r) == At(x, c + Num32(ColumnShift(x)), r + Num32(RowShift(x)))
  {
    hide Cell, CellAt, Transpose, RowShift, ColumnShift, CalculateOffset, Cropped, At, Num8, Num32;
    var p := Point(c as u8, r as u8);
    Coordinate(c);
    Coordinate(r);
    ShiftedAt(x, p, ColumnShift(x), RowShift(x));
  }

  lemma ShiftedAt(x: u64, p: Point, dc: u32, dr: u32)
    requires p.OnBoard() && dc == ColumnShift(x) && dr == RowShift(x)
    ensures At(Cropped(x), Num8(p.col), Num8(p.row)) == At(x, Num8(p.col) + Num32(dc), Num8(p.row) + Num32(dr))
  {
    hide *;
    CroppedAtSum(x, p, dc, dr);
    CellAtSum(x, p, dc, dr);
  }

  /** The cropped plane at `p`, read from the plane before cropping. */
  lemma CroppedAtSum(x: u64, p: Point, dc: u32, dr: u32)
    requires p.OnBoard() && dc == ColumnShift(x) && dr == RowShift(x)
    ensures At(Cropped(x), Num8(p.col), Num8(p.row)) == CellAt(x, p.col as u32 + dc, p.row as u32 + dr)
  {
    hide Cell, CellAt, Transpose, RowShift, ColumnShift, CalculateOffset, Cropped, At, Num8, Num32;
    CroppedCell(x, p);
    AtPoint(Cropped(x), p);
  }

  /** `CellAt` at a point moved by two shifts, read with whole numbers. */
  lemma CellAtSum(x: u64, p: Point, dc: u32, dr: u32)
    requires p.OnBoard() && dc <= 6 && dr <= 6
    ensures CellAt(x, p.col as u32 + dc, p.row as u32 + dr) == At(x, Num8(p.col) + Num32(dc), Num8(p.row) + Num32(dr))
  {
    hide Cell, CellAt, At, Num8, Num32;
    SumValue(p.col, dc);
    SumValue(p.row, dr);
    CellAtValue(x, p.col as u32 + dc, p.row as u32 + dr, Num8(p.col) + Num32(dc), Num8(p.row) + Num32(dr));
  }

  lemma Coordinate(c: int)
    requires 0 <= c < 7
    ensures (c as u8) < 7 && Num8(c as u8) == c
  {
  }

  /** No cell lies left of the column shift or below the row shift. */
  lemma ShiftBelowAt(x: u64, c: int, r: int)
    requires At(x, c, r)
    ensures Num32(ColumnShift(x)) <= c && Num32(RowShift(x)) <= r
  {
    hide Cell, Transpose, RowShift, ColumnShift;
    var p := Point(c as u8, r as u8);
    ColumnShiftBelow(x, p);
    RowShiftBelow(x, p);
  }

  /** `y` is `x` moved left by `dc` columns and down by `dr` rows. */
  ghost predicate Moved(y: u64, x: u64, dc: int, dr: int) {
    forall c, r :: At(y, c, r) == At(x, c + dc, r + dr)
  }

  /** Cropping moves every cell by the column and row shifts, on and off the board. */
  lemma CropMoves(x: u64)
    ensures Moved(Cropped(x), x, Num32(ColumnShift(x)), Num32(RowShift(x)))
  {
    hide Cell, CellAt, Transpose, RowShift, ColumnShift, CalculateOffset, Cropped, At, Num32;
    forall c, r
      ensures At(Cropped(x), c, r) == At(x, c + Num32(ColumnShift(x)), r + Num32(RowShift(x)))
    {
      CropMovesAt(x, c, r);
    }
  }

  lemma CropMovesAt(x: u64, c: int, r: int)
    ensures At(Cropped(x), c, r) == At(x, c + Num32(ColumnShift(x)), r + Num32(RowShift(x)))
  {
    hide Cell, CellAt, Transpose, RowShift, ColumnShift, CalculateOffset, Cropped, Num32;
    if 0 <= c < 7 && 0 <= r < 7 {
      CropAt(x, c, r);
    } else if At(x, c + Num32(ColumnShift(x)), r + Num32(RowShift(x))) {
      ShiftBelowAt(x, c + Num32(ColumnShift(x)), r + Num32(RowShift(x)));
    }
  }

  lemma CroppedOnBoard(x: u64)
    requires OnBoardOnly(x)
    ensures OnBoardOnly(Cropped(x))
  {
    hide CalculateOffset;
    CroppedIsShift(x);
  }

  /** Two planes with the same high bits and the same cells are equal. */
  lemma PlanesEqual(a: u64, b: u64)
    requires a >> 49 == b >> 49
    requires forall c, r :: At(a, c, r) == At(b, c, r)
    ensures a == b
  {
    hide Cell;
    forall p: Point | p.OnBoard()
      ensures Cell(a, p) == Cell(b, p)
    {
      AtPoint(a, p);
      AtPoint(b, p);
    }
    CellsDetermine(a, b);
  }

  /** A plane with high bits is never moved by cropping. */
  lemma CroppedHigh(x: u64)
    requires !OnBoardOnly(x)
    ensures Cropped(x) == x
  {
    hide CalculateOffset;
    CroppedIsShift(x);
    HighBitsCropFixed(x);
  }

  /** Transposing swaps the row shift with the column shift. */
  lemma TransposeShifts(a: u64)
    ensures RowShift(Transpose(a)) == ColumnShift(a)
    ensures ColumnShift(Transpose(a)) == RowShift(a)
  {
    hide Transpose, RowShift;
    TransposeInvolution(a);
  }

  /** Cropping commutes with `transpose`. */
  lemma CropTranspose(a: u64)
    ensures Cropped(Transpose(a)) == Transpose(Cropped(a))
  {
    hide Cell, Transpose, RowShift, ColumnShift, CalculateOffset, Cropped, At, Num32;
    var t := Transpose(a);
    TransposeHighBits(a);
    if !OnBoardOnly(a) {
      CroppedHigh(a);
      CroppedHigh(t);
    } else {
      CroppedOnBoard(a);
      CroppedOnBoard(t);
      TransposeHighBits(Cropped(a));
      TransposeInvolution(a);
      TransposeShifts(a);
      CropMoves(a);
      CropMoves(t);
      forall c, r
        ensures At(Cropped(t), c, r) == At(Transpose(Cropped(a)), c, r)
      {
        TransposeAt(Cropped(a), c, r);
        TransposeAt(a, c + Num32(RowShift(a)), r + Num32(ColumnShift(a)));
      }
      PlanesEqual(Cropped(t), Transpose(Cropped(a)));
    }
  }

  /** Cropping twice is cropping once. */
  lemma CroppedTwice(w: u64)
    ensures Cropped(Cropped(w)) == Cropped(w)
  {
    hide CalculateOffset, Cropped;
    CroppedIsShift(w);
    if w == 0 {
      CalculateOffsetEmpty();
      CroppedIsShift(0);
    } else {
      CropIdempotent(w);
      CroppedIsShift(Cropped(w));
    }
  }

  /** Walking `k` steps and then `i` steps is the walk to the composed symmetry. */
  lemma WalkCompose(x: u64, i: u8, k: u8)
    requires i < 8 && k < 8
    ensures Walk(Walk(x, k), i) == Walk(x, Compose(i, k))
  {
    hide Cell, Compose, High;
    WalkComposeCells(x, i, k);
    WalkComposeHighBits(x, i, k);
    SameCells(Walk(Walk(x, k), i), Walk(x, Compose(i, k)));
  }

  lemma WalkComposeCells(x: u64, i: u8, k: u8)
    requires i < 8 && k < 8
    ensures forall q: Point :: q.OnBoard() ==> Cell(Walk(Walk(x, k), i), q) == Cell(Walk(x, Compose(i, k)), q)
  {
    hide Cell, Walk, Image, Compose, Inverse;
    forall q: Point | q.OnBoard()
      ensures Cell(Walk(Walk(x, k), i), q) == Cell(Walk(x, Compose(i, k)), q)
    {
      WalkTwiceBack(x, i, k, q);
      WalkBack(x, Compose(i, k), q);
    }
  }

  lemma WalkComposeHighBits(x: u64, i: u8, k: u8)
    requires i < 8 && k < 8
    ensures High(Walk(Walk(x, k), i)) == High(Walk(x, Compose(i, k)))
  {
    hide Compose, High;
    WalkHigh(x, k);
    WalkHigh(Walk(x, k), i);
    WalkHigh(x, Compose(i, k));
  }

  /** The bits above the board. */
  function High(x: u64): u64 {
    x >> 49
  }

  /** `CellsDetermine`, with the high bits compared through `High`. */
  lemma SameCells(a: u64, b: u64)
    requires High(a) == High(b)
    requires forall p: Point :: p.OnBoard() ==> Cell(a, p) == Cell(b, p)
    ensures a == b
  {
    hide Cell;
    CellsDetermine(a, b);
  }

  lemma WalkHigh(x: u64, i: u8)
    requires i < 8
    ensures High(Walk(x, i)) == High(x)
  {
    hide *;
    WalkHighBits(x, i);
    SameHigh(Walk(x, i), x);
  }

  lemma SameHigh(a: u64, b: u64)
    requires a >> 49 == b >> 49
    ensures High(a) == High(b)
  {
  }

  /** A cell of a walk, read back through the inverse symmetry. */
  lemma WalkBack(x: u64, c: u8, q: Point)
    requires c < 8 && q.OnBoard()
    ensures Inverse(c) < 8 && Cell(Walk(x, c), q) == Cell(x, Image(Inverse(c), q))
  {
    hide Cell, Walk, Image, Inverse;
    forall p: Point | p.OnBoard()
      ensures Cell(Walk(x, c), Image(c, p)) == Cell(x, p)
    {
      WalkCell(x, c, p);
    }
    ImageCellBack(Walk(x, c), x, c, q);
  }

  /** A cell of two walks in a row, read back through the inverse of the composed symmetry. */
  lemma WalkTwiceBack(x: u64, i: u8, k: u8, q: Point)
    requires i < 8 && k < 8 && q.OnBoard()
    ensures Inverse(Compose(i, k)) < 8
    ensures Cell(Walk(Walk(x, k), i), q) == Cell(x, Image(Inverse(Compose(i, k)), q))
  {
    hide Cell, Walk, Image, Compose, Inverse;
    var c := Compose(i, k);
    forall p: Point | p.OnBoard()
      ensures Cell(Walk(Walk(x, k), i), Image(c, p)) == Cell(x, p)
    {
      ImageCompose(i, k, p);
      WalkCell(Walk(x, k), i, Image(k, p));
      WalkCell(x, k, p);
    }
    ImageCellBack(Walk(Walk(x, k), i), x, c, q);
  }

  /**
   * Where a plane's cells lie along one axis: between `lo` and `hi`, with a
   * cell at `lo` (across the other axis at `atLo`) and one at `hi` (at `atHi`).
   */
  datatype Extent = Extent(lo: int, hi: int, atLo: int, atHi: int)

  /** The set cells of `x` span rows `e.lo` to `e.hi`. */
  ghost predicate Rows(x: u64, e: Extent) {
    At(x, e.atLo, e.lo) && At(x, e.atHi, e.hi) && forall c, r :: At(x, c, r) ==> e.lo <= r <= e.hi
  }

  /** The set cells of `x` span columns `f.lo` to `f.hi`. */
  ghost predicate Columns(x: u64, f: Extent) {
    At(x, f.lo, f.atLo) && At(x, f.hi, f.atHi) && forall c, r :: At(x, c, r) ==> f.lo <= c <= f.hi
  }

  /**
   * The rows (or columns) `calculate_offset` drops from a plane whose cells
   * span `lo` to `hi`: all but one of those below `lo`, none when `hi` is the
   * last row.
   */
  function Dropped(lo: int, hi: int): int {
    if hi == 6 || lo == 0 then 0 else lo - 1
  }

  /** Whether row 6 or a bit above it is set. */
  predicate TopRowSet(x: u64) {
    x >> 42 != 0
  }

  lemma RowShiftCases(x: u64)
    ensures TopRowSet(x) ==> Num32(RowShift(x)) == 0
    ensures !TopRowSet(x) ==> RowShift(x) == DroppedRows(Tzcnt49(x))
  {
    hide Tzcnt49, DroppedRows;
  }

  lemma DroppedValue(t: u32)
    requires t < 49
    ensures Num32(DroppedRows(t)) == if Num32(t / 7) == 0 then 0 else Num32(t / 7) - 1
  {
  }

  /** A set cell in row 6 sets the top row. */
  lemma RowSixFromAt(x: u64, c: int)
    requires At(x, c, 6)
    ensures TopRowSet(x)
  {
    hide Cell;
    RowSixSet(x, Point(c as u8, 6));
  }

  /** When the top row of an on-board plane is set, it has a cell in row 6. */
  lemma RowSixAt(x: u64)
    requires OnBoardOnly(x)
    ensures TopRowSet(x) ==> At(x, Num8(RowSixColumn(x)), 6)
  {
    hide Cell, RowSixColumn;
    if TopRowSet(x) {
      RowSixCell(x);
      AtPoint(x, Point(RowSixColumn(x), 6));
    }
  }

  /** The empty plane has no cell. */
  lemma AtNonZero(x: u64, c: int, r: int)
    requires At(x, c, r)
    ensures x != 0
  {
  }

  /** The row of bit index `t` is at most the row of a cell at index `t` or above. */
  lemma IndexRow(t: u32, p: Point, r: int)
    requires p.OnBoard() && Num8(p.row) == r && t <= p.Index()
    ensures Num32(t / 7) <= r
  {
  }

  /** Every cell of `x` lies in the row of the lowest set bit or above. */
  lemma LowerBound(x: u64, c: int, r: int)
    requires At(x, c, r)
    ensures Num32(Tzcnt49(x) / 7) <= r
  {
    hide Cell, Tzcnt49, Num32;
    var p := Point(c as u8, r as u8);
    Coordinate(r);
    Tzcnt49AtMost(x, p);
    IndexRow(Tzcnt49(x), p, r);
  }

  /** The lowest row holding a cell: the row of the lowest set bit. */
  lemma LowRow(x: u64) returns (lo: int, at: int)
    requires OnBoardOnly(x) && x != 0
    ensures Tzcnt49(x) < 49 && lo == Num32(Tzcnt49(x) / 7)
    ensures At(x, at, lo)
    ensures forall c, r :: At(x, c, r) ==> lo <= r
  {
    hide Cell, Tzcnt49, At, Num8, Num32;
    OnBoardCounted(x);
    var t := Tzcnt49(x);
    LowestCell(x);
    var q := Point((t % 7) as u8, (t / 7) as u8);
    AtPoint(x, q);
    RowValue(t);
    lo, at := Num8(q.row), Num8(q.col);
    forall c, r | At(x, c, r)
      ensures lo <= r
    {
      LowerBound(x, c, r);
    }
  }

  lemma RowValue(t: u32)
    requires t < 49
    ensures Num8((t / 7) as u8) == Num32(t / 7)
  {
  }

  lemma AtBounds(x: u64, c: int, r: int)
    requires At(x, c, r)
    ensures 0 <= c < 7 && 0 <= r < 7
  {
  }

  /** The row shift of an on-board plane, from the rows its cells span. */
  lemma RowShiftOf(x: u64, e: Extent)
    requires OnBoardOnly(x) && Rows(x, e)
    ensures Num32(RowShift(x)) == Dropped(e.lo, e.hi)
  {
    hide Cell, Tzcnt49, DroppedRows, RowShift, TopRowSet, At, Num8, Num32;
    AtNonZero(x, e.atLo, e.lo);
    var lo, at := LowRow(x);
    RowSixAt(x);
    if e.hi == 6 {
      RowSixFromAt(x, e.atHi);
    }
    RowShiftCases(x);
    DroppedValue(Tzcnt49(x));
    AtBounds(x, e.atHi, e.hi);
  }

  /** Transposing swaps the rows a plane spans with its columns. */
  lemma TransposeRows(x: u64, f: Extent)
    requires Columns(x, f)
    ensures Rows(Transpose(x), f)
  {
    hide Transpose, At;
    TransposeAt(x, f.atLo, f.lo);
    TransposeAt(x, f.atHi, f.hi);
    forall c, r
      ensures At(Transpose(x), c, r) == At(x, r, c)
    {
      TransposeAt(x, c, r);
    }
  }

  lemma TransposeColumns(x: u64, e: Extent)
    requires Rows(x, e)
    ensures Columns(Transpose(x), e)
  {
    hide Transpose, At;
    TransposeAt(x, e.lo, e.atLo);
    TransposeAt(x, e.hi, e.atHi);
    forall c, r
      ensures At(Transpose(x), c, r) == At(x, r, c)
    {
      TransposeAt(x, c, r);
    }
  }

  lemma TransposeOnBoard(x: u64)
    requires OnBoardOnly(x)
    ensures OnBoardOnly(Transpose(x))
  {
    hide Transpose;
    TransposeHighBits(x);
  }

  lemma FlipOnBoard(x: u64)
    requires OnBoardOnly(x)
    ensures OnBoardOnly(Flip(x))
  {
    hide Flip;
    FlipHighBits(x);
  }

  /** The column shift of an on-board plane, from the columns its cells span. */
  lemma ColumnShiftOf(x: u64, f: Extent)
    requires OnBoardOnly(x) && Columns(x, f)
    ensures Num32(ColumnShift(x)) == Dropped(f.lo, f.hi)
  {
    hide Transpose, RowShift, Rows, Columns, OnBoardOnly, Num32;
    TransposeRows(x, f);
    TransposeOnBoard(x);
    RowShiftOf(Transpose(x), f);
  }

  /** `flip` turns the rows a plane spans upside down. */
  lemma FlipRows(x: u64, e: Extent)
    requires Rows(x, e)
    ensures Rows(Flip(x), Extent(6 - e.hi, 6 - e.lo, e.atHi, e.atLo))
  {
    hide Flip, At;
    FlipAt(x, e.atHi, 6 - e.hi);
    FlipAt(x, e.atLo, 6 - e.lo);
    forall c, r
      ensures At(Flip(x), c, r) == At(x, c, 6 - r)
    {
      FlipAt(x, c, r);
    }
  }

  /** `flip` leaves the columns a plane spans alone. */
  lemma FlipColumns(x: u64, f: Extent)
    requires Columns(x, f)
    ensures Columns(Flip(x), Extent(f.lo, f.hi, 6 - f.atLo, 6 - f.atHi))
  {
    hide Flip, At;
    FlipAt(x, f.lo, 6 - f.atLo);
    FlipAt(x, f.hi, 6 - f.atHi);
    forall c, r
      ensures At(Flip(x), c, r) == At(x, c, 6 - r)
    {
      FlipAt(x, c, r);
    }
  }

  /** The rows a non-empty on-board plane spans. */
  lemma RowsOf(x: u64) returns (e: Extent)
    requires OnBoardOnly(x) && x != 0
    ensures Rows(x, e)
  {
    hide Flip, At, Num32, Tzcnt49;
    var lo, al := LowRow(x);
    FlipOnBoard(x);
    FlipNonZero(x);
    var lo2, ah := LowRow(Flip(x));
    FlipAt(x, ah, lo2);
    e := Extent(lo, 6 - lo2, al, ah);
    forall c, r | At(x, c, r)
      ensures r <= 6 - lo2
    {
      FlipAt(x, c, 6 - r);
    }
  }

  /** The columns a non-empty on-board plane spans. */
  lemma ColumnsOf(x: u64) returns (f: Extent)
    requires OnBoardOnly(x) && x != 0
    ensures Columns(x, f)
  {
    hide Transpose, Rows, Columns, OnBoardOnly;
    TransposeOnBoard(x);
    TransposeNonZero(x);
    f := RowsOf(Transpose(x));
    TransposeColumns(Transpose(x), f);
    TransposeInvolution(x);
  }

  /** Moving a plane moves the rows it spans. */
  lemma MovedRows(y: u64, x: u64, dc: int, dr: int, e: Extent)
    requires Moved(y, x, dc, dr) && Rows(x, e)
    ensures Rows(y, Extent(e.lo - dr, e.hi - dr, e.atLo - dc, e.atHi - dc))
  {
    hide At;
    assert At(y, e.atLo - dc, e.lo - dr) == At(x, e.atLo - dc + dc, e.lo - dr + dr);
    assert At(y, e.atHi - dc, e.hi - dr) == At(x, e.atHi - dc + dc, e.hi - dr + dr);
  }

  /** Moving a plane moves the columns it spans. */
  lemma MovedColumns(y: u64, x: u64, dc: int, dr: int, f: Extent)
    requires Moved(y, x, dc, dr) && Columns(x, f)
    ensures Columns(y, Extent(f.lo - dc, f.hi - dc, f.atLo - dr, f.atHi - dr))
  {
    hide At;
    assert At(y, f.lo - dc, f.atLo - dr) == At(x, f.lo - dc + dc, f.atLo - dr + dr);
    assert At(y, f.hi - dc, f.atHi - dr) == At(x, f.hi - dc + dc, f.atHi - dr + dr);
  }

  /** The rows or columns an extent spans lie on the board, in order. */
  lemma RowsBounds(x: u64, e: Extent)
    requires Rows(x, e)
    ensures 0 <= e.lo <= e.hi <= 6 && 0 <= e.atLo <= 6 && 0 <= e.atHi <= 6
  {
  }

  lemma ColumnsBounds(x: u64, f: Extent)
    requires Columns(x, f)
    ensures 0 <= f.lo <= f.hi <= 6 && 0 <= f.atLo <= 6 && 0 <= f.atHi <= 6
  {
  }

  /** A cropped span is not cropped again. */
  lemma DroppedAgain(lo: int, hi: int)
    requires 0 <= lo <= hi <= 6
    ensures Dropped(lo - Dropped(lo, hi), hi - Dropped(lo, hi)) == 0
  {
  }

  /** Turned upside down, a cropped span is cropped by what the original span is, plus what was dropped. */
  lemma DroppedFlipped(lo: int, hi: int)
    requires 0 <= lo <= hi <= 6
    ensures Dropped(6 - hi + Dropped(lo, hi), 6 - lo + Dropped(lo, hi)) == Dropped(6 - hi, 6 - lo) + Dropped(lo, hi)
  {
  }

  lemma CroppedZero()
    ensures Cropped(0) == 0
  {
    hide CalculateOffset;
    CalculateOffsetEmpty();
    CroppedIsShift(0);
  }

  lemma MovedAt(y: u64, x: u64, dc: int, dr: int, c: int, r: int)
    requires Moved(y, x, dc, dr)
    ensures At(y, c, r) == At(x, c + dc, r + dr)
  {
  }

  /** Two flipped and moved planes that land on the same cells. */
  lemma FlipMovesAgree(a: u64, b: u64, y: u64, z: u64, dc: int, dr: int, d2: int, d3: int)
    requires Moved(b, a, dc, dr)
    requires Moved(y, Flip(b), 0, d2) && Moved(z, Flip(a), dc, d3)
    requires d2 == d3 + dr
    ensures forall c, r :: At(y, c, r) == At(z, c, r)
  {
    hide At, Flip, Moved;
    forall c, r
      ensures At(y, c, r) == At(z, c, r)
    {
      MovedAt(y, Flip(b), 0, d2, c, r);
      FlipAt(b, c + 0, r + d2);
      MovedAt(b, a, dc, dr, c, 6 - (r + d2));
      MovedAt(z, Flip(a), dc, d3, c, r);
      FlipAt(a, c + dc, r + d3);
      assert 6 - (r + d2) + dr == 6 - (r + d3);
    }
  }

  /** Cropping after a `flip` does not see an earlier crop. */
  lemma CropFlipCrop(a: u64)
    ensures Cropped(Flip(Cropped(a))) == Cropped(Flip(a))
  {
    hide Cell, Flip, Transpose, RowShift, ColumnShift, CalculateOffset, Cropped;
    if !OnBoardOnly(a) {
      CroppedHigh(a);
    } else if a == 0 {
      CroppedZero();
    } else {
      CropFlipCropOnBoard(a);
    }
  }

  lemma CropFlipCropOnBoard(a: u64)
    requires OnBoardOnly(a) && a != 0
    ensures Cropped(Flip(Cropped(a))) == Cropped(Flip(a))
  {
    hide Cell, Flip, Transpose, RowShift, ColumnShift, CalculateOffset, Cropped, At, Num32, OnBoardOnly, Moved, Rows, Columns;
    var e := RowsOf(a);
    var f := ColumnsOf(a);
    RowsBounds(a, e);
    ColumnsBounds(a, f);
    var dr, dc := Dropped(e.lo, e.hi), Dropped(f.lo, f.hi);
    // The crop of `a`, and the spans it moves to.
    var b := Cropped(a);
    CropMoves(a);
    RowShiftOf(a, e);
    ColumnShiftOf(a, f);
    var eb := Extent(e.lo - dr, e.hi - dr, e.atLo - dc, e.atHi - dc);
    var fb := Extent(f.lo - dc, f.hi - dc, f.atLo - dr, f.atHi - dr);
    MovedRows(b, a, dc, dr, e);
    MovedColumns(b, a, dc, dr, f);
    CroppedOnBoard(a);
    // The crop of `flip(b)`.
    FlipRows(b, eb);
    FlipColumns(b, fb);
    FlipOnBoard(b);
    var fe := Extent(6 - eb.hi, 6 - eb.lo, eb.atHi, eb.atLo);
    CropMoves(Flip(b));
    RowShiftOf(Flip(b), fe);
    ColumnShiftOf(Flip(b), Extent(fb.lo, fb.hi, 6 - fb.atLo, 6 - fb.atHi));
    // The crop of `flip(a)`.
    FlipRows(a, e);
    FlipColumns(a, f);
    FlipOnBoard(a);
    CropMoves(Flip(a));
    RowShiftOf(Flip(a), Extent(6 - e.hi, 6 - e.lo, e.atHi, e.atLo));
    ColumnShiftOf(Flip(a), Extent(f.lo, f.hi, 6 - f.atLo, 6 - f.atHi));
    DroppedAgain(f.lo, f.hi);
    DroppedFlipped(e.lo, e.hi);
    FlipMovesAgree(a, b, Cropped(Flip(b)), Cropped(Flip(a)), dc, dr, Dropped(fe.lo, fe.hi), Dropped(6 - e.hi, 6 - e.lo));
    CroppedOnBoard(Flip(b));
    CroppedOnBoard(Flip(a));
    NoHighBits(Cropped(Flip(b)));
    NoHighBits(Cropped(Flip(a)));
    PlanesEqual(Cropped(Flip(b)), Cropped(Flip(a)));
  }

  lemma NoHighBits(x: u64)
    requires OnBoardOnly(x)
    ensures x >> 49 == 0
  {
  }

  /** Planes with the same crop keep the same crop through a `flip` or a `transpose`. */
  lemma CropStep(a: u64, b: u64)
    requires Cropped(a) == Cropped(b)
    ensures Cropped(Flip(a)) == Cropped(Flip(b))
    ensures Cropped(Transpose(a)) == Cropped(Transpose(b))
  {
    hide *;
    CropFlipCrop(a);
    CropFlipCrop(b);
    CropTranspose(a);
    CropTranspose(b);
  }

  /** Walking from the cropped plane ends, once cropped, where walking from the plane does. */
  lemma {:induction false} WalkCropped(w: u64, i: u8)
    requires i < 8
    ensures Cropped(Walk(Cropped(w), i)) == Cropped(Walk(w, i))
    decreases i
  {
    hide Flip, Transpose, Cropped;
    if i == 0 {
      CroppedTwice(w);
    } else {
      WalkCropped(w, i - 1);
      CropStep(Walk(Cropped(w), i - 1), Walk(w, i - 1));
    }
  }

  /** The images of a minimized zone, cropped, are images of the original zone, cropped. */
  lemma CandidateOfMinimized(z: u64, k: u8, i: u8)
    requires k < 8 && i < 8
    ensures Candidate(Candidate(z, k), i) == Candidate(z, Compose(i, k))
  {
    hide Walk, Cropped, Compose;
    WalkCropped(Walk(z, k), i);
    WalkCompose(z, i, k);
  }

  /**
   * `minimize` is idempotent on a non-empty zone: the minimized zone is its
   * own first least candidate, already cropped, so a second call applies
   * symmetry 0 and shift 0 to every plane.
   */
  lemma MinimizedIdempotent(pos: Position)
    requires pos.zone != 0
    ensures Minimized(Minimized(pos)) == Minimized(pos)
  {
    hide Walk, Cropped, Compose, Isomorphize, ShiftDown, CalculateOffset, Candidate, MinimumIndex, PlaneBelow;
    var z, k := pos.zone, MinimumIndex(pos.zone);
    var m := Minimized(pos);
    MinimizedZone(pos);
    MinimizedCropped(pos);
    forall i: u8 | i < 8
      ensures !PlaneBelow(Candidate(m.zone, i), Candidate(m.zone, 0))
    {
      CandidateOfMinimized(z, k, i);
      CandidateOfMinimized(z, k, 0);
      ComposeIdentity(k);
    }
    MinimumIndexUnique(m.zone, 0);
    CandidateZero(m.zone);
    IsomorphizeIdentity(m.black);
    IsomorphizeIdentity(m.white);
    ShiftDownNone(m.black);
    ShiftDownNone(m.white);
  }

  /** Step 0 of the walk, and candidate 0 of a plane `calculate_offset` leaves in place, are the plane. */
  lemma CandidateZero(x: u64)
    requires CalculateOffset(x) == 0
    ensures Walk(x, 0) == x
    ensures Candidate(x, 0) == x
  {
    hide CalculateOffset;
  }

  /** Symmetry 0 composed after any symmetry is that symmetry. */
  lemma ComposeIdentity(k: u8)
    requires k < 8
    ensures Compose(0, k) == k
  {
  }

  /**
   * On the empty zone `minimize` is not idempotent: it shifts the stones down
   * by 48 bits each time, so a stone on bit 48 moves to bit 0 and then off.
   */
  lemma EmptyZoneNotIdempotent()
    ensures Minimized(Position(0, 0x1_0000_0000_0000, 0)) == Position(0, 1, 0)
    ensures Minimized(Position(0, 1, 0)) == Position(0, 0, 0)
    ensures Minimized(Minimized(Position(0, 0x1_0000_0000_0000, 0))) != Minimized(Position(0, 0x1_0000_0000_0000, 0))
  {
    hide *;
    EmptyZoneShifted(0x1_0000_0000_0000, 0);
    EmptyZoneShifted(1, 0);
  }

  /** Cropping never empties a plane. */
  lemma CroppedNonZero(x: u64)
    requires x != 0
    ensures Cropped(x) != 0
  {
    hide Cell, Tzcnt49, Transpose, RowShift, ColumnShift, CalculateOffset, Cropped;
    if !OnBoardOnly(x) {
      CroppedHigh(x);
    } else {
      var e := RowsOf(x);
      var f := ColumnsOf(x);
      CropMoves(x);
      RowShiftOf(x, e);
      ColumnShiftOf(x, f);
      RowsBounds(x, e);
      MovedAt(Cropped(x), x, Dropped(f.lo, f.hi), Dropped(e.lo, e.hi), e.atLo - Dropped(f.lo, f.hi), e.lo - Dropped(e.lo, e.hi));
      AtNonZero(Cropped(x), e.atLo - Dropped(f.lo, f.hi), e.lo - Dropped(e.lo, e.hi));
    }
  }

  /** The single cell in the centre, column 3, row 3, crops to column 1, row 1. */
  lemma CentreCropped()
    ensures Cropped(0x100_0000) == 0x100
  {
    hide Tzcnt49, Transpose, Cell, Bit;
    CentreLowestBit();
    CentreSymmetric();
    CroppedIsShift(0x100_0000);
  }

  lemma CentreLowestBit()
    ensures Tzcnt49(0x100_0000) == 24
  {
    hide Tzcnt49;
    Tzcnt49AtMost(0x100_0000, Point(3, 3));
    Tzcnt49Found(0x100_0000);
  }

  /**
   * `minimize` does not forget where a shape lies: a single stone at column 0,
   * row 0 keeps its zone, while the same stone at the centre is moved to
   * column 1, row 1 and not further, because cropping keeps one empty row and
   * column when it moves a plane at all.
   */
  lemma MinimizedNotTranslationInvariant()
    ensures Minimized(Position(1, 0, 0)).zone == 1
    ensures Minimized(Position(0x100_0000, 0, 0)).zone == 0x100
  {
    hide Walk, Cropped, CalculateOffset, Flip, Transpose, MinimumIndex;
    var m := Minimized(Position(1, 0, 0)).zone;
    MinimizedZone(Position(1, 0, 0));
    WalkNonZero(1, MinimumIndex(1));
    CroppedNonZero(Walk(1, MinimumIndex(1)));
    CandidateOne();
    SmallestNonZero(m, Candidate(1, 0));
    CentreSymmetric();
    AllCandidatesEqual(0x100_0000);
    CentreCropped();
  }

  lemma CandidateOne()
    ensures Candidate(1, 0) == 1
  {
  }

  /** Nothing non-zero is below a plane holding 1. */
  lemma SmallestNonZero(m: u64, one: u64)
    requires m != 0 && one == 1 && !PlaneBelow(one, m)
    ensures m == 1
  {
  }

  lemma CentreSymmetric()
    ensures Flip(0x100_0000) == 0x100_0000 && Transpose(0x100_0000) == 0x100_0000
  {
  }
}
