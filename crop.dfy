/**
 * The crop of `calculate_offset` and the trailing-zero count `tzcnt49` it
 * rests on.
 */
module Crop {
  import opened Cells
  import opened Transforms

  /** The first set bit of `y` at or above bit `k`, or 64 if there is none. */
  function LowestSetFrom(y: u64, k: u32): (n: u32)
    requires k <= 64
    ensures k <= n <= 64
    decreases 64 - k
  {
    if k == 64 then 64
    else if Bit(y, k) then k
    else LowestSetFrom(y, k + 1)
  }

  lemma {:induction false} LowestSetFromFound(y: u64, k: u32)
    requires k <= 64
    ensures LowestSetFrom(y, k) < 64 ==> Bit(y, LowestSetFrom(y, k))
    decreases 64 - k
  {
    hide Bit;
    if k < 64 && !Bit(y, k) {
      LowestSetFromFound(y, k + 1);
    }
  }

  lemma {:induction false} LowestSetFromClearBelow(y: u64, k: u32, j: u32)
    requires k <= 64 && k <= j < LowestSetFrom(y, k)
    ensures !Bit(y, j)
    decreases 64 - k
  {
    hide Bit;
    if j != k {
      LowestSetFromClearBelow(y, k + 1, j);
    }
  }

  /** Setting bit 49 keeps the cell bits and stops the search at 49. */
  lemma MarkedStopBit(x: u64)
    ensures Bit(x | (1 << 49), 49)
  {
  }

  lemma MarkedBit(x: u64, j: u32)
    requires j < 49
    ensures Bit(x | (1 << 49), j) == Bit(x, j)
  {
  }

  lemma MarkedStop(x: u64)
    ensures LowestSetFrom(x | (1 << 49), 0) <= 49
  {
    hide Bit;
    MarkedStopBit(x);
    if LowestSetFrom(x | (1 << 49), 0) > 49 {
      LowestSetFromClearBelow(x | (1 << 49), 0, 49);
    }
  }

  /**
   * `tzcnt49`: the number of trailing zeros of `x` with bit 49 set, so that
   * a plane without cells counts 49.
   */
  function Tzcnt49(x: u64): (n: u32)
    ensures n <= 49
  {
    MarkedStop(x);
    LowestSetFrom(x | (1 << 49), 0)
  }

  /** Below 49, `Tzcnt49(x)` is the index of a set bit. */
  lemma Tzcnt49Found(x: u64)
    ensures Tzcnt49(x) < 49 ==> Bit(x, Tzcnt49(x))
  {
    hide Bit;
    LowestSetFromFound(x | (1 << 49), 0);
    if Tzcnt49(x) < 49 {
      MarkedBit(x, Tzcnt49(x));
    }
  }

  /** Every bit below `Tzcnt49(x)` is clear. */
  lemma Tzcnt49ClearBelow(x: u64, j: u32)
    requires j < Tzcnt49(x)
    ensures !Bit(x, j)
  {
    hide Bit;
    MarkedBit(x, j);
    LowestSetFromClearBelow(x | (1 << 49), 0, j);
  }

  /** The count is 49 exactly when `x` has no cell. */
  lemma Tzcnt49Empty(x: u64)
    ensures Tzcnt49(x) == 49 <==> x & FullBoard == 0
  {
    Tzcnt49Found(x);
    if Tzcnt49(x) == 49 {
      forall k: u32 | k < 49
        ensures Bit(x & FullBoard, k) == Bit(0, k)
      {
        Tzcnt49ClearBelow(x, k);
      }
      BitsDetermine(x & FullBoard, 0);
    } else {
      assert Bit(x & FullBoard, Tzcnt49(x));
    }
  }

  /** `std::max` on two counts. */
  function Max(a: u32, b: u32): u32 {
    if a < b then b else a
  }

  /** The rows below the lowest set cell, less one, given the count `t` of trailing zeros. */
  function DroppedRows(t: u32): (d: u32)
    requires t <= 49
    ensures d <= 6
  {
    Max(t / 7, 1) - 1
  }

  /** The rows `calculate_offset` moves a plane down by: none when row 6 or a bit above it is set. */
  function RowShift(x: u64): (d: u32)
    ensures d <= 6
  {
    if x >> 42 == 0 then DroppedRows(Tzcnt49(x)) else 0
  }

  /** The columns `calculate_offset` moves a plane left by: the rows of its transpose. */
  function ColumnShift(x: u64): (d: u32)
    ensures d <= 6
  {
    RowShift(Transpose(x))
  }

  /** `calculate_offset`: the shift that moves the plane down and left, keeping one empty row and column. */
  function CalculateOffset(x: u64): (offset: u32)
    ensures offset <= 48
  {
    RowShift(x) * 7 + ColumnShift(x)
  }

  /** A count no larger than the index of the cell at `p` drops at most `p.row` rows. */
  lemma DroppedRowsBelow(t: u32, p: Point)
    requires p.OnBoard() && t <= 49 && t <= p.Index()
    ensures DroppedRows(t) <= p.row as u32
  {
  }

  /** No set cell lies in the rows `RowShift` removes. */
  lemma RowShiftBelow(x: u64, p: Point)
    requires p.OnBoard() && Cell(x, p)
    ensures RowShift(x) <= p.row as u32
  {
    hide Bit, Tzcnt49, DroppedRows;
    var t := Tzcnt49(x);
    assert t <= p.Index() by {
      if t > p.Index() {
        Tzcnt49ClearBelow(x, p.Index());
      }
    }
    DroppedRowsBelow(t, p);
  }

  /** No set cell lies in the columns `ColumnShift` removes. */
  lemma ColumnShiftBelow(x: u64, p: Point)
    requires p.OnBoard() && Cell(x, p)
    ensures ColumnShift(x) <= p.col as u32
  {
    hide Bit, Transpose, RowShift;
    TransposeCell(x, p);
    RowShiftBelow(Transpose(x), Point(p.row, p.col));
  }

  /** A plane with a bit above the board is not shifted. */
  lemma HighBitsNotShifted(x: u64)
    requires !OnBoardOnly(x)
    ensures RowShift(x) == 0 && ColumnShift(x) == 0 && CalculateOffset(x) == 0
  {
    hide Transpose, Tzcnt49, DroppedRows;
    TransposeHighBits(x);
  }

  /** Bit `k` of `x >> s` is bit `k + s` of `x`. */
  lemma ShiftBit(x: u64, s: u32, k: u32)
    requires s < 49 && k < 49 && k + s < 49
    ensures Bit(x >> s, k) == Bit(x, k + s)
  {
  }

  /** Shifting a plane without high bits brings zeros in from above. */
  lemma ShiftBitAbove(x: u64, s: u32, k: u32)
    requires OnBoardOnly(x) && s < 49 && k < 49 && 49 <= k + s
    ensures !Bit(x >> s, k)
  {
  }

  /** The empty plane is shifted by six rows and six columns. */
  lemma CalculateOffsetEmpty()
    ensures CalculateOffset(0) == 48
  {
    Tzcnt49Empty(0);
    assert Transpose(0) == 0;
  }

  lemma IndexMoved(p: Point, dc: u32, dr: u32)
    requires p.OnBoard() && dc <= 6 && dr <= 6
    requires p.col as u32 + dc < 7 && p.row as u32 + dr < 7
    ensures Point((p.col as u32 + dc) as u8, (p.row as u32 + dr) as u8).OnBoard()
    ensures Point((p.col as u32 + dc) as u8, (p.row as u32 + dr) as u8).Index() == p.Index() + (dr * 7 + dc)
  {
  }

  lemma IndexWrapped(p: Point, dc: u32, dr: u32)
    requires p.OnBoard() && dc <= 6 && dr <= 6
    requires 7 <= p.col as u32 + dc && p.Index() + (dr * 7 + dc) < 49
    ensures Point(p.col + dc as u8 - 7, p.row + dr as u8 + 1).OnBoard()
    ensures Point(p.col + dc as u8 - 7, p.row + dr as u8 + 1).Index() == p.Index() + (dr * 7 + dc)
    ensures (p.col + dc as u8 - 7) as u32 < dc
  {
  }

  lemma IndexAbove(p: Point, dc: u32, dr: u32)
    requires p.OnBoard() && dc <= 6 && dr <= 6
    requires 7 <= p.row as u32 + dr
    ensures 49 <= p.Index() + (dr * 7 + dc)
  {
  }

  /** The cell at column `col`, row `row` of `x`; clear off the board. */
  predicate CellAt(x: u64, col: u32, row: u32) {
    col < 7 && row < 7 && Cell(x, Point(col as u8, row as u8))
  }

  /** The cell at `p` of `x >> s` is bit `p.Index() + s` of `x`. */
  lemma ShiftCell(x: u64, s: u32, p: Point)
    requires p.OnBoard() && s < 49 && p.Index() + s < 49
    ensures Cell(x >> s, p) == Bit(x, p.Index() + s)
  {
    hide Bit;
    ShiftBit(x, s, p.Index());
  }

  /** Shifting by `s` brings the cell at `q` to `p` when `q`'s index is `s` more than `p`'s. */
  lemma ShiftCellMoved(x: u64, s: u32, p: Point, q: Point)
    requires p.OnBoard() && q.OnBoard() && s < 49 && q.Index() == p.Index() + s
    ensures Cell(x >> s, p) == Cell(x, q)
  {
    hide Bit;
    ShiftCell(x, s, p);
  }

  /** Shifting a plane without high bits clears the cells whose source lies above bit 48. */
  lemma ShiftCellAbove(x: u64, s: u32, p: Point)
    requires p.OnBoard() && OnBoardOnly(x) && s < 49 && 49 <= p.Index() + s
    ensures !Cell(x >> s, p)
  {
    hide Bit;
    ShiftBitAbove(x, s, p.Index());
  }

  /**
   * Shifting right by `s`, that is `dr` rows and `dc` columns, a plane with
   * no set cell in its first `dc` columns moves every cell by the same
   * amount: the cell at `p` of the result is the cell `dc` columns right and
   * `dr` rows up of it, clear when that lies off the board.
   */
  lemma ShiftMovesCells(x: u64, s: u32, dc: u32, dr: u32, p: Point)
    requires p.OnBoard() && dc <= 6 && dr <= 6 && s == dr * 7 + dc
    requires s == 0 || OnBoardOnly(x)
    requires forall q: Point :: q.OnBoard() && Cell(x, q) ==> dc <= q.col as u32
    ensures Cell(x >> s, p) == CellAt(x, p.col as u32 + dc, p.row as u32 + dr)
  {
    hide Cell, CellAt, Point.Index;
    if s == 0 {
      NoShiftMovesCells(x, s, dc, dr, p);
    } else if p.col as u32 + dc < 7 && p.row as u32 + dr < 7 {
      ShiftMovesInside(x, s, dc, dr, p);
    } else if 7 <= p.row as u32 + dr || 49 <= p.Index() + s {
      ShiftMovesFromAbove(x, s, dc, dr, p);
    } else {
      ShiftMovesWrapped(x, s, dc, dr, p);
    }
  }

  lemma NoShiftMovesCells(x: u64, s: u32, dc: u32, dr: u32, p: Point)
    requires p.OnBoard() && dc <= 6 && dr <= 6 && s == dr * 7 + dc && s == 0
    ensures Cell(x >> s, p) == CellAt(x, p.col as u32 + dc, p.row as u32 + dr)
  {
    hide Cell;
    assert x >> s == x;
    assert Point((p.col as u32 + dc) as u8, (p.row as u32 + dr) as u8) == p;
  }

  lemma ShiftMovesInside(x: u64, s: u32, dc: u32, dr: u32, p: Point)
    requires p.OnBoard() && dc <= 6 && dr <= 6 && s == dr * 7 + dc
    requires p.col as u32 + dc < 7 && p.row as u32 + dr < 7
    ensures Cell(x >> s, p) == CellAt(x, p.col as u32 + dc, p.row as u32 + dr)
  {
    hide Cell, Point.Index;
    IndexMoved(p, dc, dr);
    ShiftCellMoved(x, s, p, Point((p.col as u32 + dc) as u8, (p.row as u32 + dr) as u8));
  }

  lemma ShiftMovesFromAbove(x: u64, s: u32, dc: u32, dr: u32, p: Point)
    requires p.OnBoard() && dc <= 6 && dr <= 6 && s == dr * 7 + dc && OnBoardOnly(x)
    requires 7 <= p.col as u32 + dc || 7 <= p.row as u32 + dr
    requires 7 <= p.row as u32 + dr || 49 <= p.Index() + s
    ensures !Cell(x >> s, p) && !CellAt(x, p.col as u32 + dc, p.row as u32 + dr)
  {
    hide Cell, Point.Index;
    if 7 <= p.row as u32 + dr {
      IndexAbove(p, dc, dr);
    }
    ShiftCellAbove(x, s, p);
  }

  lemma ShiftMovesWrapped(x: u64, s: u32, dc: u32, dr: u32, p: Point)
    requires p.OnBoard() && dc <= 6 && dr <= 6 && s == dr * 7 + dc
    requires forall q: Point :: q.OnBoard() && Cell(x, q) ==> dc <= q.col as u32
    requires 7 <= p.col as u32 + dc && p.row as u32 + dr < 7 && p.Index() + s < 49
    ensures !Cell(x >> s, p) && !CellAt(x, p.col as u32 + dc, p.row as u32 + dr)
  {
    hide Cell, Point.Index;
    IndexWrapped(p, dc, dr);
    var w := Point(p.col + dc as u8 - 7, p.row + dr as u8 + 1);
    ShiftCellMoved(x, s, p, w);
  }

  /**
   * The crop moves every cell by the same number of rows and columns: the
   * cell at `p` of the cropped plane is the cell `ColumnShift` columns to the
   * right and `RowShift` rows up of the original, and is clear when that
   * lies off the board. With `ColumnShiftBelow` and `RowShiftBelow`, no set
   * cell is lost and none wraps into another row.
   */
  lemma CropMovesCells(x: u64, p: Point)
    requires p.OnBoard()
    ensures Cell(x >> CalculateOffset(x), p) == CellAt(x, p.col as u32 + ColumnShift(x), p.row as u32 + RowShift(x))
  {
    hide Cell, CellAt, Transpose, RowShift, ColumnShift, CalculateOffset;
    ShiftedOnlyOnBoard(x);
    ColumnShiftBelowAll(x);
    OffsetParts(x);
    ShiftMovesCells(x, CalculateOffset(x), ColumnShift(x), RowShift(x), p);
  }

  /** Only a plane without high bits is shifted at all. */
  lemma ShiftedOnlyOnBoard(x: u64)
    ensures CalculateOffset(x) == 0 || OnBoardOnly(x)
  {
    hide Transpose, RowShift, ColumnShift;
    if !OnBoardOnly(x) {
      HighBitsNotShifted(x);
    }
  }

  lemma ColumnShiftBelowAll(x: u64)
    ensures forall q: Point :: q.OnBoard() && Cell(x, q) ==> ColumnShift(x) <= q.col as u32
  {
    hide Cell, Transpose, RowShift, ColumnShift;
    forall q: Point | q.OnBoard() && Cell(x, q)
      ensures ColumnShift(x) <= q.col as u32
    {
      ColumnShiftBelow(x, q);
    }
  }

  lemma OffsetParts(x: u64)
    ensures CalculateOffset(x) == RowShift(x) * 7 + ColumnShift(x)
  {
  }

  /** The count is at most the index of any set cell. */
  lemma Tzcnt49AtMost(x: u64, p: Point)
    requires p.OnBoard() && Cell(x, p)
    ensures Tzcnt49(x) <= p.Index()
  {
    hide Bit, Tzcnt49;
    if Tzcnt49(x) > p.Index() {
      Tzcnt49ClearBelow(x, p.Index());
    }
  }

  /** The cell whose bit `Tzcnt49(x)` is, when that is below 49. */
  lemma LowestCell(x: u64)
    requires Tzcnt49(x) < 49
    ensures Point((Tzcnt49(x) % 7) as u8, (Tzcnt49(x) / 7) as u8).OnBoard()
    ensures Cell(x, Point((Tzcnt49(x) % 7) as u8, (Tzcnt49(x) / 7) as u8))
  {
    hide Bit, Tzcnt49;
    Tzcnt49Found(x);
    PointOfIndex(Tzcnt49(x));
  }

  /** A column of row 6 holding a set cell, when row 6 has one. */
  function RowSixColumn(x: u64): (c: u8)
    ensures c < 7
  {
    if Cell(x, Point(0, 6)) then 0
    else if Cell(x, Point(1, 6)) then 1
    else if Cell(x, Point(2, 6)) then 2
    else if Cell(x, Point(3, 6)) then 3
    else if Cell(x, Point(4, 6)) then 4
    else if Cell(x, Point(5, 6)) then 5
    else 6
  }

  lemma RowSixCell(x: u64)
    requires OnBoardOnly(x) && x >> 42 != 0
    ensures Cell(x, Point(RowSixColumn(x), 6))
  {
  }

  /** A set cell in row 6 shows in the bits above 41. */
  lemma RowSixSet(y: u64, q: Point)
    requires q.OnBoard() && q.row == 6 && Cell(y, q)
    ensures y >> 42 != 0
  {
  }

  /** A count below 14 drops no row. */
  lemma DroppedRowsLow(t: u32)
    requires t < 14
    ensures DroppedRows(t) == 0
  {
  }

  /** After dropping `DroppedRows(t)` rows, the row of bit `t` is row 0 or row 1. */
  lemma DroppedRowsLeavesOne(t: u32)
    requires t < 49
    ensures DroppedRows(t) <= t / 7 <= DroppedRows(t) + 1
  {
  }

  /** A plane with a set cell in row 0, row 1 or row 6 is not moved down. */
  lemma RowShiftZero(y: u64, q: Point)
    requires q.OnBoard() && Cell(y, q) && (q.row <= 1 || q.row == 6)
    ensures RowShift(y) == 0
  {
    hide Cell, Tzcnt49, DroppedRows;
    if q.row == 6 {
      RowSixSet(y, q);
    } else {
      Tzcnt49AtMost(y, q);
      DroppedRowsLow(Tzcnt49(y));
    }
  }

  /** A plane with a set cell in column 0, column 1 or column 6 is not moved left. */
  lemma ColumnShiftZero(y: u64, q: Point)
    requires q.OnBoard() && Cell(y, q) && (q.col <= 1 || q.col == 6)
    ensures ColumnShift(y) == 0
  {
    hide Cell, Transpose, RowShift;
    TransposeCell(y, q);
    RowShiftZero(Transpose(y), Point(q.row, q.col));
  }

  /** No set cell is lost: the cell at `p` lands `ColumnShift` columns left and `RowShift` rows down. */
  lemma CropKeepsCell(x: u64, p: Point)
    requires p.OnBoard() && Cell(x, p)
    ensures Point(p.col - ColumnShift(x) as u8, p.row - RowShift(x) as u8).OnBoard()
    ensures Cell(x >> CalculateOffset(x), Point(p.col - ColumnShift(x) as u8, p.row - RowShift(x) as u8))
  {
    hide Cell, CellAt, Transpose, RowShift, ColumnShift, CalculateOffset;
    ColumnShiftBelow(x, p);
    RowShiftBelow(x, p);
    var q := Point(p.col - ColumnShift(x) as u8, p.row - RowShift(x) as u8);
    CropMovesCells(x, q);
    CellAtPoint(x, q, ColumnShift(x), RowShift(x), p);
  }

  lemma CellAtPoint(x: u64, q: Point, dc: u32, dr: u32, p: Point)
    requires p.OnBoard() && dc <= p.col as u32 && dr <= p.row as u32
    requires q == Point(p.col - dc as u8, p.row - dr as u8)
    ensures q.OnBoard() && CellAt(x, q.col as u32 + dc, q.row as u32 + dr) == Cell(x, p)
  {
    hide Cell;
    assert Point((q.col as u32 + dc) as u8, (q.row as u32 + dr) as u8) == p;
  }

  /** A plane with bits above the board is left where it is. */
  lemma HighBitsCropFixed(x: u64)
    requires !OnBoardOnly(x)
    ensures x >> CalculateOffset(x) == x
  {
    hide Transpose, Tzcnt49, DroppedRows, RowShift, ColumnShift;
    HighBitsNotShifted(x);
  }

  /** An on-board plane other than 0 has a set cell, so its count is below 49. */
  lemma OnBoardCounted(x: u64)
    requires OnBoardOnly(x) && x != 0
    ensures Tzcnt49(x) < 49
  {
    hide Tzcnt49;
    Tzcnt49Empty(x);
  }

  /** Cropping leaves a set cell in row 0, row 1 or row 6. */
  lemma CropRowWitness(x: u64) returns (q: Point)
    requires OnBoardOnly(x) && x != 0
    ensures q.OnBoard() && (q.row <= 1 || q.row == 6) && Cell(x >> CalculateOffset(x), q)
  {
    hide Cell, Transpose, Tzcnt49, DroppedRows, RowShift, ColumnShift, CalculateOffset;
    if x >> 42 == 0 {
      OnBoardCounted(x);
      LowestCell(x);
      var t := Tzcnt49(x);
      var p := Point((t % 7) as u8, (t / 7) as u8);
      CropKeepsCell(x, p);
      LowRowShift(x);
      DroppedRowsLeavesOne(t);
      q := Point(p.col - ColumnShift(x) as u8, p.row - RowShift(x) as u8);
    } else {
      RowSixCell(x);
      var p := Point(RowSixColumn(x), 6);
      CropKeepsCell(x, p);
      HighRowShift(x);
      q := Point(p.col - ColumnShift(x) as u8, p.row - RowShift(x) as u8);
    }
  }

  lemma LowRowShift(x: u64)
    requires x >> 42 == 0
    ensures RowShift(x) == DroppedRows(Tzcnt49(x))
  {
  }

  lemma HighRowShift(x: u64)
    requires x >> 42 != 0
    ensures RowShift(x) == 0
  {
  }

  /** Cropping leaves a set cell in column 0, column 1 or column 6. */
  lemma CropColumnWitness(x: u64) returns (q: Point)
    requires OnBoardOnly(x) && x != 0
    ensures q.OnBoard() && (q.col <= 1 || q.col == 6) && Cell(x >> CalculateOffset(x), q)
  {
    hide Cell, Transpose, Tzcnt49, DroppedRows, RowShift, ColumnShift, CalculateOffset;
    var z := Transpose(x);
    TransposedOnBoard(x);
    if z >> 42 == 0 {
      OnBoardCounted(z);
      LowestCell(z);
      var t := Tzcnt49(z);
      var p := Point((t / 7) as u8, (t % 7) as u8);
      TransposeCell(x, p);
      CropKeepsCell(x, p);
      LowColumnShift(x, z);
      DroppedRowsLeavesOne(t);
      q := Point(p.col - ColumnShift(x) as u8, p.row - RowShift(x) as u8);
    } else {
      RowSixCell(z);
      var p := Point(6, RowSixColumn(z));
      TransposeCell(x, p);
      CropKeepsCell(x, p);
      HighColumnShift(x, z);
      q := Point(p.col - ColumnShift(x) as u8, p.row - RowShift(x) as u8);
    }
  }

  lemma TransposedOnBoard(x: u64)
    requires OnBoardOnly(x) && x != 0
    ensures OnBoardOnly(Transpose(x)) && Transpose(x) != 0
  {
    hide Transpose;
    TransposeHighBits(x);
    TransposeInvolution(x);
    TransposeZero();
  }

  lemma TransposeZero()
    ensures Transpose(0) == 0
  {
  }

  lemma LowColumnShift(x: u64, z: u64)
    requires z == Transpose(x) && z >> 42 == 0
    ensures ColumnShift(x) == DroppedRows(Tzcnt49(z))
  {
    hide Transpose, Tzcnt49, DroppedRows;
  }

  lemma HighColumnShift(x: u64, z: u64)
    requires z == Transpose(x) && z >> 42 != 0
    ensures ColumnShift(x) == 0
  {
    hide Transpose, Tzcnt49, DroppedRows;
  }

  /**
   * Cropping is idempotent: the offset of a cropped plane other than 0 is 0,
   * since the crop leaves a cell in row 0, 1 or 6 and in column 0, 1 or 6.
   */
  lemma CropIdempotent(x: u64)
    requires x != 0
    ensures CalculateOffset(x >> CalculateOffset(x)) == 0
  {
    hide Cell, Transpose, Tzcnt49, DroppedRows, RowShift, ColumnShift, CalculateOffset;
    if !OnBoardOnly(x) {
      HighBitsCropFixed(x);
      HighBitsNotShifted(x);
    } else {
      var y := x >> CalculateOffset(x);
      var q := CropRowWitness(x);
      var q' := CropColumnWitness(x);
      RowShiftZero(y, q);
      ColumnShiftZero(y, q');
      OffsetParts(y);
    }
  }
}
