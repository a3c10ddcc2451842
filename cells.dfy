/**
 * Cells of the 7x7 board and the bits that hold them.
 *
 * A plane is a 64-bit word; the cell in column `col` and row `row` is bit
 * `row * 7 + col`, so only bits 0..48 stand for cells. Coordinates and bit
 * indices are 32-bit unsigned values, as in the header (`u32 x, y`).
 */
module Cells {

  type u64 = bv64
  type u32 = bv32
  type u8 = bv8

  /** The 49 bits that stand for cells. */
  const FullBoard: u64 := 0x1_ffff_ffff_ffff

  /** A cell address; only on-board points name a cell. */
  datatype Point = Point(col: u8, row: u8) {
    predicate OnBoard() { col < 7 && row < 7 }

    /** The bit that holds this cell. */
    function Index(): (k: u32)
      requires OnBoard()
      ensures k < 49
    {
      (row as u32) * 7 + (col as u32)
    }
  }

  /** Bit `k` of `x`. */
  predicate Bit(x: u64, k: u32)
    requires k < 64
  {
    (x >> k) & 1 == 1
  }

  /** Whether plane `x` has the cell at `p` set. */
  predicate Cell(x: u64, p: Point)
    requires p.OnBoard()
  {
    Bit(x, p.Index())
  }

  /** A plane all of whose set bits stand for cells. */
  predicate OnBoardOnly(x: u64) {
    x >> 49 == 0
  }

  /** Every bit index below 49 is the index of exactly one cell. */
  lemma PointOfIndex(k: u32)
    requires k < 49
    ensures Point((k % 7) as u8, (k / 7) as u8).OnBoard() && Point((k % 7) as u8, (k / 7) as u8).Index() == k
  {
  }

  /** Bit `k` of `a` and of `b` agree, stated through the mask of that bit. */
  predicate SameBit(a: u64, b: u64, k: u32)
    requires k < 64
  {
    a & (1 << k) == b & (1 << k)
  }

  lemma SameBitOfBit(a: u64, b: u64, k: u32)
    requires k < 49 && Bit(a, k) == Bit(b, k)
    ensures SameBit(a, b, k)
  {
  }

  /** Agreement on the 49 cell bits, one row of the board per line. */
  lemma SameBitsDetermine(a: u64, b: u64)
    requires a >> 49 == b >> 49
    requires forall k: u32 :: k < 49 ==> SameBit(a, b, k)
    ensures a == b
  {
    assert SameBit(a, b, 0) && SameBit(a, b, 1) && SameBit(a, b, 2) && SameBit(a, b, 3) && SameBit(a, b, 4) && SameBit(a, b, 5) && SameBit(a, b, 6);
    assert SameBit(a, b, 7) && SameBit(a, b, 8) && SameBit(a, b, 9) && SameBit(a, b, 10) && SameBit(a, b, 11) && SameBit(a, b, 12) && SameBit(a, b, 13);
    assert SameBit(a, b, 14) && SameBit(a, b, 15) && SameBit(a, b, 16) && SameBit(a, b, 17) && SameBit(a, b, 18) && SameBit(a, b, 19) && SameBit(a, b, 20);
    assert SameBit(a, b, 21) && SameBit(a, b, 22) && SameBit(a, b, 23) && SameBit(a, b, 24) && SameBit(a, b, 25) && SameBit(a, b, 26) && SameBit(a, b, 27);
    assert SameBit(a, b, 28) && SameBit(a, b, 29) && SameBit(a, b, 30) && SameBit(a, b, 31) && SameBit(a, b, 32) && SameBit(a, b, 33) && SameBit(a, b, 34);
    assert SameBit(a, b, 35) && SameBit(a, b, 36) && SameBit(a, b, 37) && SameBit(a, b, 38) && SameBit(a, b, 39) && SameBit(a, b, 40) && SameBit(a, b, 41);
    assert SameBit(a, b, 42) && SameBit(a, b, 43) && SameBit(a, b, 44) && SameBit(a, b, 45) && SameBit(a, b, 46) && SameBit(a, b, 47) && SameBit(a, b, 48);
  }

  /** Two planes with the same high bits are equal when they agree on every row. */
  lemma RowsDetermine(a: u64, b: u64)
    requires a >> 49 == b >> 49
    requires a & 0x7f == b & 0x7f
    requires a & 0x3f80 == b & 0x3f80
    requires a & 0x1f_c000 == b & 0x1f_c000
    requires a & 0xfe0_0000 == b & 0xfe0_0000
    requires a & 0x7_f000_0000 == b & 0x7_f000_0000
    requires a & 0x3f8_0000_0000 == b & 0x3f8_0000_0000
    requires a & 0x1_fc00_0000_0000 == b & 0x1_fc00_0000_0000
    ensures a == b
  {
  }

  /** Two planes with the same high bits are equal when they agree on every cell bit. */
  lemma BitsDetermine(a: u64, b: u64)
    requires a >> 49 == b >> 49
    requires forall k: u32 :: k < 49 ==> Bit(a, k) == Bit(b, k)
    ensures a == b
  {
    forall k: u32 | k < 49
      ensures SameBit(a, b, k)
    {
      SameBitOfBit(a, b, k);
    }
    SameBitsDetermine(a, b);
  }

  /** Two planes with the same high bits are equal when they agree on every cell. */
  lemma CellsDetermine(a: u64, b: u64)
    requires a >> 49 == b >> 49
    requires forall p: Point :: p.OnBoard() ==> Cell(a, p) == Cell(b, p)
    ensures a == b
  {
    forall k: u32 | k < 49
      ensures Bit(a, k) == Bit(b, k)
    {
      PointOfIndex(k);
      assert Cell(a, Point((k % 7) as u8, (k / 7) as u8)) == Cell(b, Point((k % 7) as u8, (k / 7) as u8));
    }
    BitsDetermine(a, b);
  }
}
