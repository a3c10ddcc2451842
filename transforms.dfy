/**
 * The three fixed permutations of the 49 cell bits: `transpose`, `flip` and
 * `mirror` of Zone7x7Bitboard.h. Each is a function on one plane; the lemmas
 * give each its geometric meaning cell by cell.
 */
module Transforms {
  import opened Cells

  /**
   * Reflection in the main diagonal, as the header writes it: four
   * delta swaps over distances 6, 12, 18 and 24.
   */
  function Transpose(x: u64): u64 {
    var z := x ^ (x << 6);
    var z := z & 0x8888_8088_8880;
    var x := x ^ (z | (z >> 6));
    var z := x ^ (x << 12);
    var z := z & 0x4440_0044_4000;
    var x := x ^ (z | (z >> 12));
    var z := x ^ (x << 18);
    var z := z & 0x2000_0020_0000;
    var x := x ^ (z | (z >> 18));
    var z := x ^ (x << 24);
    var z := z & 0x1c38_7000_0000;
    x ^ (z | (z >> 24))
  }

  /**
   * Row reversal, as the header writes it: two multiplications gather the
   * rows that change place, and an exclusive-or puts them there.
   */
  function Flip(x: u64): u64 {
    var p := x & 0x0000_0007_f000_3fff;
    var p := p * 0x0200_0800_0000_0002 >> 15;
    var p := p & 0x0001_fff8_001f_c000;
    var q := x & 0x0001_fff8_001f_c000;
    var q := q ^ p;
    var p := q >> 14;
    var p := p * 0x0200_0000_0000_8002 >> 29;
    var p := p & 0x0000_0007_f000_3fff;
    x ^ (p | q)
  }

  /**
   * What `Flip` is meant to do, written row by row: row `r` moves to row
   * `6 - r` and the bits above the board stay where they are.
   */
  function ReversedRows(x: u64): u64 {
    (x & 0xfffe_0000_0000_0000)
    | ((x & 0x7f) << 42) | ((x & 0x3f80) << 28) | ((x & 0x1f_c000) << 14)
    | (x & 0xfe0_0000)
    | ((x & 0x7_f000_0000) >> 14) | ((x & 0x3f8_0000_0000) >> 28) | ((x & 0x1_fc00_0000_0000) >> 42)
  }

  /** The cells of column `c`. */
  function ColumnMask(c: u32): u64
    requires c < 7
  {
    0x408_1020_4081 << c
  }

  /** Column reversal: column `c` moves to column `6 - c`. */
  function Mirror(x: u64): u64 {
    (x & ColumnMask(3))
    | ((x & ColumnMask(0)) << 6) | ((x & ColumnMask(6)) >> 6)
    | ((x & ColumnMask(1)) << 4) | ((x & ColumnMask(5)) >> 4)
    | ((x & ColumnMask(2)) << 2) | ((x & ColumnMask(4)) >> 2)
  }

  /** The columns `mirror`'s loop has moved after `i` rounds. */
  function MirroredColumns(i: u32): u64
    requires i <= 3
  {
    ColumnMask(3)
    | (if i > 0 then ColumnMask(0) | ColumnMask(6) else 0)
    | (if i > 1 then ColumnMask(1) | ColumnMask(5) else 0)
    | (if i > 2 then ColumnMask(2) | ColumnMask(4) else 0)
  }

  /** What `mirror`'s loop has built after `i` rounds: the image of the columns moved so far. */
  function MirrorProgress(x: u64, i: u32): u64
    requires i <= 3
  {
    Mirror(x & MirroredColumns(i))
  }

  /** Round `i` of `mirror`'s loop: column `i` goes to `6 - i` and column `6 - i` to `i`. */
  function RoundColumns(x: u64, i: u32): u64
    requires i < 3
  {
    ((x & (0x408_1020_4081 << i)) << (6 - i * 2)) | ((x & (0x1_0204_0810_2040 >> i)) >> (6 - i * 2))
  }

  /**
   * The loop of the header's `mirror`: the middle column stays, and round
   * `i` moves columns `i` and `6 - i` to each other's place.
   */
  method MirrorLoop(x: u64) returns (z: u64)
    ensures z == Mirror(x)
    ensures OnBoardOnly(z)
  {
    z := x & 0x2040_8102_0408;
    MirrorMiddleColumn(x);
    var i: u32 := 0;
    while i < 3
      invariant i <= 3
      invariant z == MirrorProgress(x, i)
    {
      MirrorRound(x, i, z);
      z := z | RoundColumns(x, i);
      i := i + 1;
    }
    MirrorAllColumns(x);
  }

  lemma MirrorMiddleColumn(x: u64)
    ensures x & 0x2040_8102_0408 == MirrorProgress(x, 0)
  {
  }

  lemma MirrorAllColumns(x: u64)
    ensures MirrorProgress(x, 3) == Mirror(x)
    ensures OnBoardOnly(Mirror(x))
  {
  }

  /** One round of the loop adds the two columns it moves. */
  lemma MirrorRound(x: u64, i: u32, z: u64)
    requires i < 3
    requires z == MirrorProgress(x, i)
    ensures z | RoundColumns(x, i) == MirrorProgress(x, i + 1)
  {
    if i == 0 {
      MirrorRoundOuter(x, i);
    } else if i == 1 {
      MirrorRoundMiddle(x, i);
    } else {
      MirrorRoundInner(x, i);
    }
  }

  lemma MirrorRoundOuter(x: u64, i: u32)
    requires i == 0
    ensures MirrorProgress(x, i) | RoundColumns(x, i) == MirrorProgress(x, i + 1)
  {
  }

  lemma MirrorRoundMiddle(x: u64, i: u32)
    requires i == 1
    ensures MirrorProgress(x, i) | RoundColumns(x, i) == MirrorProgress(x, i + 1)
  {
  }

  lemma MirrorRoundInner(x: u64, i: u32)
    requires i == 2
    ensures MirrorProgress(x, i) | RoundColumns(x, i) == MirrorProgress(x, i + 1)
  {
  }

  lemma TransposeBit(x: u64, c: u32, r: u32)
    requires c < 7 && r < 7
    ensures Bit(Transpose(x), c * 7 + r) == Bit(x, r * 7 + c)
  {
  }

  /** `Transpose` moves the cell in column c, row r to column r, row c. */
  lemma TransposeCell(x: u64, p: Point)
    requires p.OnBoard()
    ensures Cell(Transpose(x), Point(p.row, p.col)) == Cell(x, p)
  {
    hide Transpose;
    TransposeBit(x, p.col as u32, p.row as u32);
  }

  lemma TransposeHighBits(x: u64)
    ensures Transpose(x) >> 49 == x >> 49
  {
  }

  lemma TransposeInvolution(x: u64)
    ensures Transpose(Transpose(x)) == x
  {
  }

  lemma FlipRow0(x: u64)
    ensures Flip(x) & 0x7f == ReversedRows(x) & 0x7f
  {
  }

  lemma FlipRow1(x: u64)
    ensures Flip(x) & 0x3f80 == ReversedRows(x) & 0x3f80
  {
  }

  lemma FlipRow2(x: u64)
    ensures Flip(x) & 0x1f_c000 == ReversedRows(x) & 0x1f_c000
  {
  }

  lemma FlipRow3(x: u64)
    ensures Flip(x) & 0xfe0_0000 == ReversedRows(x) & 0xfe0_0000
  {
  }

  lemma FlipRow4(x: u64)
    ensures Flip(x) & 0x7_f000_0000 == ReversedRows(x) & 0x7_f000_0000
  {
  }

  lemma FlipRow5(x: u64)
    ensures Flip(x) & 0x3f8_0000_0000 == ReversedRows(x) & 0x3f8_0000_0000
  {
  }

  lemma FlipRow6(x: u64)
    ensures Flip(x) & 0x1_fc00_0000_0000 == ReversedRows(x) & 0x1_fc00_0000_0000
  {
  }

  lemma FlipHighBits(x: u64)
    ensures Flip(x) >> 49 == x >> 49
  {
  }

  /** The header's `flip` reverses the rows. */
  lemma FlipReversesRows(x: u64)
    ensures Flip(x) == ReversedRows(x)
  {
    hide Flip, ReversedRows;
    FlipRow0(x);
    FlipRow1(x);
    FlipRow2(x);
    FlipRow3(x);
    FlipRow4(x);
    FlipRow5(x);
    FlipRow6(x);
    FlipHighBits(x);
    ReversedRowsHighBits(x);
    RowsDetermine(Flip(x), ReversedRows(x));
  }

  lemma ReversedRowsHighBits(x: u64)
    ensures ReversedRows(x) >> 49 == x >> 49
  {
  }

  lemma ReversedRowsBit(x: u64, c: u32, r: u32)
    requires c < 7 && r < 7
    ensures Bit(ReversedRows(x), (6 - r) * 7 + c) == Bit(x, r * 7 + c)
  {
  }

  lemma FlipBit(x: u64, c: u32, r: u32)
    requires c < 7 && r < 7
    ensures Bit(Flip(x), (6 - r) * 7 + c) == Bit(x, r * 7 + c)
  {
    hide Flip, ReversedRows;
    FlipReversesRows(x);
    ReversedRowsBit(x, c, r);
  }

  /** `Flip` moves the cell in column c, row r to column c, row 6 - r. */
  lemma FlipCell(x: u64, p: Point)
    requires p.OnBoard()
    ensures Cell(Flip(x), Point(p.col, 6 - p.row)) == Cell(x, p)
  {
    hide Flip;
    FlipBit(x, p.col as u32, p.row as u32);
  }

  lemma FlipInvolution(x: u64)
    ensures Flip(Flip(x)) == x
  {
    hide Flip;
    FlipReversesRows(x);
    FlipReversesRows(Flip(x));
    ReversedRowsInvolution(x);
  }

  lemma ReversedRowsInvolution(x: u64)
    ensures ReversedRows(ReversedRows(x)) == x
  {
  }

  lemma MirrorBit(x: u64, c: u32, r: u32)
    requires c < 7 && r < 7
    ensures Bit(Mirror(x), r * 7 + (6 - c)) == Bit(x, r * 7 + c)
  {
  }

  /** `Mirror` moves the cell in column c, row r to column 6 - c, row r. */
  lemma MirrorCell(x: u64, p: Point)
    requires p.OnBoard()
    ensures Cell(Mirror(x), Point(6 - p.col, p.row)) == Cell(x, p)
  {
    hide Mirror;
    MirrorBit(x, p.col as u32, p.row as u32);
  }

  /** Mirroring twice gives back the cells and clears every bit above 48. */
  lemma MirrorInvolution(x: u64)
    ensures Mirror(Mirror(x)) == x & FullBoard
  {
  }
}
