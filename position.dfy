/**
 * A zone position as a value: the three planes `zone` (cells in play),
 * `black` and `white`, cell access with `get` and `set`, and the plane-wise
 * operators and comparisons of Zone7x7Bitboard.h.
 */
module Positions {
  import opened Cells

  /** The `PieceType` values of the header; `IRRELEVANT` is `-1u`. */
  const ZoneEmpty: u32 := 0
  const ZoneBlack: u32 := 1
  const ZoneWhite: u32 := 2
  const ZoneUnknown: u32 := 3
  const Irrelevant: u32 := 0xFFFF_FFFF

  /** The types `set` writes into the zone; every other value clears the cell. */
  predicate IsPiece(t: u32) {
    t == ZoneEmpty || t == ZoneBlack || t == ZoneWhite
  }

  /** The single bit of cell (`x`, `y`). */
  function Mask(x: u32, y: u32): u64
    requires x < 7 && y < 7
  {
    1 << (y * 7 + x)
  }

  /** The 64-bit operators the header applies to each plane. */
  function PlaneAnd(x: u64, y: u64): u64 {
    x & y
  }

  function PlaneOr(x: u64, y: u64): u64 {
    x | y
  }

  function PlaneXor(x: u64, y: u64): u64 {
    x ^ y
  }

  function PlaneNot(x: u64): u64 {
    !x
  }

  /** The unsigned 64-bit comparison of two planes: their values as numbers. */
  predicate PlaneBelow(x: u64, y: u64) {
    x as int < y as int
  }

  /** Plane `z` has some bit of `m`: the test `get` applies to each plane. */
  predicate Hits(z: u64, m: u64) {
    PlaneAnd(z, m) != 0
  }

  /** The value `get` builds from the two stone tests: black gives 1, white gives 2, joined by `|`. */
  function Combine(black: bool, white: bool): u32 {
    (if black then ZoneBlack else ZoneEmpty) | (if white then ZoneWhite else ZoneEmpty)
  }

  datatype Position = Position(zone: u64, black: u64, white: u64) {

    /** `get`: `Irrelevant` off the zone, otherwise the stones of the cell. */
    function Get(x: u32, y: u32): u32
      requires x < 7 && y < 7
    {
      var mask := Mask(x, y);
      if !Hits(zone, mask) then Irrelevant
      else Combine(Hits(black, mask), Hits(white, mask))
    }

    /**
     * `set`: the three piece types put the cell in the zone with the matching
     * stones; every other type, `ZoneUnknown` included, takes it out of the
     * zone and clears it in all three planes.
     */
    function Set(x: u32, y: u32, t: u32): Position
      requires x < 7 && y < 7
    {
      var mask := Mask(x, y);
      if t == ZoneEmpty then
        Position(PlaneOr(zone, mask), PlaneAnd(black, PlaneNot(mask)), PlaneAnd(white, PlaneNot(mask)))
      else if t == ZoneBlack then
        Position(PlaneOr(zone, mask), PlaneOr(black, mask), PlaneAnd(white, PlaneNot(mask)))
      else if t == ZoneWhite then
        Position(PlaneOr(zone, mask), PlaneAnd(black, PlaneNot(mask)), PlaneOr(white, mask))
      else
        Position(PlaneAnd(zone, PlaneNot(mask)), PlaneAnd(black, PlaneNot(mask)), PlaneAnd(white, PlaneNot(mask)))
    }

    function And(z: Position): Position {
      Position(PlaneAnd(zone, z.zone), PlaneAnd(black, z.black), PlaneAnd(white, z.white))
    }

    function Or(z: Position): Position {
      Position(PlaneOr(zone, z.zone), PlaneOr(black, z.black), PlaneOr(white, z.white))
    }

    function Xor(z: Position): Position {
      Position(PlaneXor(zone, z.zone), PlaneXor(black, z.black), PlaneXor(white, z.white))
    }

    /** `operator~`: all 64 bits of each plane, with no mask back to the board. */
    function Complement(): Position {
      Position(PlaneNot(zone), PlaneNot(black), PlaneNot(white))
    }

    predicate Equal(z: Position) {
      zone == z.zone && black == z.black && white == z.white
    }

    /** `operator<`: true when ANY plane compares below, so it is not an order. */
    predicate Less(z: Position) {
      PlaneBelow(zone, z.zone) || PlaneBelow(black, z.black) || PlaneBelow(white, z.white)
    }

    predicate NotEqual(z: Position) {
      !Equal(z)
    }

    predicate Greater(z: Position) {
      z.Less(this)
    }

    predicate LessEq(z: Position) {
      !z.Less(this)
    }

    predicate GreaterEq(z: Position) {
      !Less(z)
    }
  }

  /** Plane `z` with the bits of `m` set when `on`, cleared otherwise: what `set` does to each plane. */
  function WriteMask(z: u64, m: u64, on: bool): u64 {
    if on then PlaneOr(z, m) else PlaneAnd(z, PlaneNot(m))
  }

  /** Planes `a` and `b` agree on every bit outside `m`. */
  predicate SameOutside(a: u64, b: u64, m: u64) {
    PlaneAnd(a, PlaneNot(m)) == PlaneAnd(b, PlaneNot(m))
  }

  lemma PointIndex(x: u32, y: u32)
    requires x < 7 && y < 7
    ensures Point(x as u8, y as u8).OnBoard()
    ensures Point(x as u8, y as u8).Index() == y * 7 + x
  {
  }

  lemma MaskIsShift(x: u32, y: u32)
    requires x < 7 && y < 7
    ensures Mask(x, y) == 1 << (y * 7 + x)
  {
  }

  lemma MaskBit(z: u64, k: u32)
    requires k < 49
    ensures Hits(z, 1 << k) == Bit(z, k)
  {
  }

  /** The mask of cell (`x`, `y`) tests that cell's bit. */
  lemma MaskCell(z: u64, x: u32, y: u32)
    requires x < 7 && y < 7
    ensures Point(x as u8, y as u8).OnBoard()
    ensures Hits(z, Mask(x, y)) == Cell(z, Point(x as u8, y as u8))
  {
    hide Bit, Hits, Mask, Point.Index;
    PointIndex(x, y);
    MaskIsShift(x, y);
    MaskBit(z, y * 7 + x);
  }

  /**
   * `get` reads the cell: `Irrelevant` exactly when the zone bit is clear,
   * otherwise 1 for a black stone plus 2 for a white one (3 when both are set).
   */
  lemma GetCell(pos: Position, x: u32, y: u32)
    requires x < 7 && y < 7
    ensures Point(x as u8, y as u8).OnBoard()
    ensures pos.Get(x, y) ==
      if !Cell(pos.zone, Point(x as u8, y as u8)) then Irrelevant
      else (if Cell(pos.black, Point(x as u8, y as u8)) then ZoneBlack else ZoneEmpty) +
           (if Cell(pos.white, Point(x as u8, y as u8)) then ZoneWhite else ZoneEmpty)
  {
    hide Cell, Hits, Mask;
    MaskCell(pos.zone, x, y);
    MaskCell(pos.black, x, y);
    MaskCell(pos.white, x, y);
  }

  /** The three planes `set` writes, case by case. */
  lemma SetPlanes(pos: Position, x: u32, y: u32, t: u32)
    requires x < 7 && y < 7
    ensures pos.Set(x, y, t) == Position(
      WriteMask(pos.zone, Mask(x, y), IsPiece(t)),
      WriteMask(pos.black, Mask(x, y), t == ZoneBlack),
      WriteMask(pos.white, Mask(x, y), t == ZoneWhite))
  {
    hide Mask, PlaneAnd, PlaneOr, PlaneNot;
  }

  lemma MaskNonZero(x: u32, y: u32)
    requires x < 7 && y < 7
    ensures Mask(x, y) != 0
  {
  }

  lemma WriteNonZero(z: u64, m: u64, on: bool)
    requires m != 0
    ensures Hits(WriteMask(z, m, on), m) == on
  {
  }

  /** Writing a cell's mask sets or clears exactly as asked. */
  lemma WriteMaskCell(z: u64, x: u32, y: u32, on: bool)
    requires x < 7 && y < 7
    ensures Point(x as u8, y as u8).OnBoard()
    ensures Cell(WriteMask(z, Mask(x, y), on), Point(x as u8, y as u8)) == on
  {
    hide *;
    MaskCell(WriteMask(z, Mask(x, y), on), x, y);
    MaskNonZero(x, y);
    WriteNonZero(z, Mask(x, y), on);
  }

  lemma WriteMaskFrame(z: u64, m: u64, on: bool)
    ensures SameOutside(WriteMask(z, m, on), z, m)
  {
  }

  /** Writing a mask leaves every cell outside it as it was. */
  lemma WriteMaskOther(z: u64, x: u32, y: u32, on: bool, p: Point)
    requires x < 7 && y < 7 && p.OnBoard() && p != Point(x as u8, y as u8)
    ensures Cell(WriteMask(z, Mask(x, y), on), p) == Cell(z, p)
  {
    hide *;
    WriteMaskFrame(z, Mask(x, y), on);
    OtherCellOutsideMask(x, y, p);
    FrameCell(WriteMask(z, Mask(x, y), on), z, Mask(x, y), p);
  }

  /** `set` writes the cell: in the zone exactly for the three piece types, black only for `ZoneBlack`, white only for `ZoneWhite`. */
  lemma SetCell(pos: Position, x: u32, y: u32, t: u32)
    requires x < 7 && y < 7
    ensures Point(x as u8, y as u8).OnBoard()
    ensures Cell(pos.Set(x, y, t).zone, Point(x as u8, y as u8)) == IsPiece(t)
    ensures Cell(pos.Set(x, y, t).black, Point(x as u8, y as u8)) == (t == ZoneBlack)
    ensures Cell(pos.Set(x, y, t).white, Point(x as u8, y as u8)) == (t == ZoneWhite)
  {
    hide *;
    SetPlanes(pos, x, y, t);
    WriteMaskCell(pos.zone, x, y, IsPiece(t));
    WriteMaskCell(pos.black, x, y, t == ZoneBlack);
    WriteMaskCell(pos.white, x, y, t == ZoneWhite);
  }

  /**
   * Reading back a written cell gives the type written when it is a piece
   * type, and `Irrelevant` for every other value, `ZoneUnknown` included.
   */
  lemma GetSet(pos: Position, x: u32, y: u32, t: u32)
    requires x < 7 && y < 7
    ensures pos.Set(x, y, t).Get(x, y) == if IsPiece(t) then t else Irrelevant
  {
    hide Position.Get, Position.Set, Cell, Mask;
    SetCell(pos, x, y, t);
    GetCell(pos.Set(x, y, t), x, y);
  }

  /** `set` changes no bit of any plane besides the bit of cell (`x`, `y`), above the board included. */
  lemma SetFrame(pos: Position, x: u32, y: u32, t: u32)
    requires x < 7 && y < 7
    ensures SameOutside(pos.Set(x, y, t).zone, pos.zone, Mask(x, y))
    ensures SameOutside(pos.Set(x, y, t).black, pos.black, Mask(x, y))
    ensures SameOutside(pos.Set(x, y, t).white, pos.white, Mask(x, y))
  {
    hide *;
    SetPlanes(pos, x, y, t);
    WriteMaskFrame(pos.zone, Mask(x, y), IsPiece(t));
    WriteMaskFrame(pos.black, Mask(x, y), t == ZoneBlack);
    WriteMaskFrame(pos.white, Mask(x, y), t == ZoneWhite);
  }

  /** `set` leaves every other cell of every plane as it was. */
  lemma SetOtherCells(pos: Position, x: u32, y: u32, t: u32, p: Point)
    requires x < 7 && y < 7 && p.OnBoard() && p != Point(x as u8, y as u8)
    ensures Cell(pos.Set(x, y, t).zone, p) == Cell(pos.zone, p)
    ensures Cell(pos.Set(x, y, t).black, p) == Cell(pos.black, p)
    ensures Cell(pos.Set(x, y, t).white, p) == Cell(pos.white, p)
  {
    hide *;
    SetPlanes(pos, x, y, t);
    WriteMaskOther(pos.zone, x, y, IsPiece(t), p);
    WriteMaskOther(pos.black, x, y, t == ZoneBlack, p);
    WriteMaskOther(pos.white, x, y, t == ZoneWhite, p);
  }

  /** Another cell's bit lies outside the mask. */
  lemma OtherCellOutsideMask(x: u32, y: u32, p: Point)
    requires x < 7 && y < 7 && p.OnBoard() && p != Point(x as u8, y as u8)
    ensures !Cell(Mask(x, y), p)
  {
    hide Bit, Mask, Point.Index;
    PointIndex(x, y);
    MaskIsShift(x, y);
    IndexDiffers(p, Point(x as u8, y as u8));
    OtherBit(y * 7 + x, p.Index());
  }

  lemma IndexDiffers(p: Point, q: Point)
    requires p.OnBoard() && q.OnBoard() && p != q
    ensures p.Index() != q.Index()
  {
  }

  lemma OtherBit(k: u32, j: u32)
    requires k < 49 && j < 49 && j != k
    ensures !Bit(1 << k, j)
  {
  }

  /** Planes that agree outside a mask agree on every cell outside it. */
  lemma FrameCell(a: u64, b: u64, m: u64, p: Point)
    requires p.OnBoard() && SameOutside(a, b, m) && !Cell(m, p)
    ensures Cell(a, p) == Cell(b, p)
  {
    hide Bit;
    FrameBit(a, b, m, p.Index());
  }

  lemma FrameBit(a: u64, b: u64, m: u64, k: u32)
    requires k < 49 && SameOutside(a, b, m) && !Bit(m, k)
    ensures Bit(a, k) == Bit(b, k)
  {
  }

  /** The source's `==` and `!=` are equality and inequality of positions. */
  lemma EqualIsEquality(a: Position, b: Position)
    ensures a.Equal(b) <==> a == b
    ensures a.NotEqual(b) <==> a != b
  {
  }

  lemma NotBelowSelf(x: u64)
    ensures !PlaneBelow(x, x)
  {
  }

  /** A plane is the 64-bit word of its numeric value. */
  lemma NumericValue(x: u64)
    ensures (x as int) as u64 == x
  {
  }

  /** Two planes with the same numeric value are the same plane. */
  lemma SameValue(a: u64, b: u64)
    requires a as int == b as int
    ensures a == b
  {
    NumericValue(a);
    NumericValue(b);
  }

  /** The comparison is transitive, also through a value that is not below. */
  lemma BelowTransitive(a: u64, b: u64, c: u64)
    ensures PlaneBelow(a, b) && PlaneBelow(b, c) ==> PlaneBelow(a, c)
    ensures PlaneBelow(a, b) && !PlaneBelow(c, b) ==> PlaneBelow(a, c)
  {
  }

  /** Of two different planes, one is below the other. */
  lemma BelowTotal(a: u64, b: u64)
    requires !PlaneBelow(a, b) && !PlaneBelow(b, a)
    ensures a == b
  {
    SameValue(a, b);
  }

  /** No position is below itself. */
  lemma LessIrreflexive(a: Position)
    ensures !a.Less(a) && a.LessEq(a) && a.GreaterEq(a)
  {
    hide PlaneBelow;
    NotBelowSelf(a.zone);
    NotBelowSelf(a.black);
    NotBelowSelf(a.white);
  }

  /** With the same stones, `<` and `<=` compare the zones as unsigned integers. */
  lemma LessOnZones(a: Position, b: Position)
    requires a.black == b.black && a.white == b.white
    ensures a.Less(b) <==> PlaneBelow(a.zone, b.zone)
    ensures a.LessEq(b) <==> !PlaneBelow(b.zone, a.zone)
  {
    hide PlaneBelow;
    NotBelowSelf(a.black);
    NotBelowSelf(a.white);
  }

  /** `<` is not an order: two positions can each be below the other, and then neither is `<=` the other. */
  lemma LessNotAsymmetric()
    ensures Position(0, 1, 0).Less(Position(1, 0, 0)) && Position(1, 0, 0).Less(Position(0, 1, 0))
    ensures !Position(0, 1, 0).LessEq(Position(1, 0, 0)) && !Position(1, 0, 0).LessEq(Position(0, 1, 0))
    ensures Position(0, 1, 0).NotEqual(Position(1, 0, 0))
  {
  }

  lemma NotNot(x: u64)
    ensures PlaneNot(PlaneNot(x)) == x
  {
  }

  /** Complementing twice gives the position back. */
  lemma ComplementInvolution(a: Position)
    ensures a.Complement().Complement() == a
  {
    hide PlaneNot;
    NotNot(a.zone);
    NotNot(a.black);
    NotNot(a.white);
  }

  /** `~` is not masked: it sets all fifteen bits above the board of an on-board plane. */
  lemma ComplementHighBits(a: Position)
    requires OnBoardOnly(a.zone)
    ensures a.Complement().zone >> 49 == 0x7fff
    ensures !OnBoardOnly(a.Complement().zone)
  {
    hide PlaneNot, OnBoardOnly;
    NotHighBits(a.zone);
  }

  lemma NotHighBits(x: u64)
    requires OnBoardOnly(x)
    ensures PlaneNot(x) >> 49 == 0x7fff && !OnBoardOnly(PlaneNot(x))
  {
  }

  lemma AndBit(x: u64, y: u64, k: u32)
    requires k < 49
    ensures Bit(PlaneAnd(x, y), k) == (Bit(x, k) && Bit(y, k))
  {
  }

  lemma OrBit(x: u64, y: u64, k: u32)
    requires k < 49
    ensures Bit(PlaneOr(x, y), k) == (Bit(x, k) || Bit(y, k))
  {
  }

  lemma XorBit(x: u64, y: u64, k: u32)
    requires k < 49
    ensures Bit(PlaneXor(x, y), k) == (Bit(x, k) != Bit(y, k))
  {
  }

  lemma NotBit(x: u64, k: u32)
    requires k < 49
    ensures Bit(PlaneNot(x), k) == !Bit(x, k)
  {
  }

  /** `&` keeps a cell of a plane exactly when both operands have it. */
  lemma AndCell(a: Position, b: Position, p: Point)
    requires p.OnBoard()
    ensures Cell(a.And(b).zone, p) == (Cell(a.zone, p) && Cell(b.zone, p))
    ensures Cell(a.And(b).black, p) == (Cell(a.black, p) && Cell(b.black, p))
    ensures Cell(a.And(b).white, p) == (Cell(a.white, p) && Cell(b.white, p))
  {
    hide Bit, PlaneAnd;
    AndBit(a.zone, b.zone, p.Index());
    AndBit(a.black, b.black, p.Index());
    AndBit(a.white, b.white, p.Index());
  }

  /** `|` has a cell of a plane exactly when either operand has it. */
  lemma OrCell(a: Position, b: Position, p: Point)
    requires p.OnBoard()
    ensures Cell(a.Or(b).zone, p) == (Cell(a.zone, p) || Cell(b.zone, p))
    ensures Cell(a.Or(b).black, p) == (Cell(a.black, p) || Cell(b.black, p))
    ensures Cell(a.Or(b).white, p) == (Cell(a.white, p) || Cell(b.white, p))
  {
    hide Bit, PlaneOr;
    OrBit(a.zone, b.zone, p.Index());
    OrBit(a.black, b.black, p.Index());
    OrBit(a.white, b.white, p.Index());
  }

  /** `^` has a cell of a plane exactly when the operands differ there. */
  lemma XorCell(a: Position, b: Position, p: Point)
    requires p.OnBoard()
    ensures Cell(a.Xor(b).zone, p) == (Cell(a.zone, p) != Cell(b.zone, p))
    ensures Cell(a.Xor(b).black, p) == (Cell(a.black, p) != Cell(b.black, p))
    ensures Cell(a.Xor(b).white, p) == (Cell(a.white, p) != Cell(b.white, p))
  {
    hide Bit, PlaneXor;
    XorBit(a.zone, b.zone, p.Index());
    XorBit(a.black, b.black, p.Index());
    XorBit(a.white, b.white, p.Index());
  }

  /** `~` flips every cell of every plane. */
  lemma ComplementCell(a: Position, p: Point)
    requires p.OnBoard()
    ensures Cell(a.Complement().zone, p) == !Cell(a.zone, p)
    ensures Cell(a.Complement().black, p) == !Cell(a.black, p)
    ensures Cell(a.Complement().white, p) == !Cell(a.white, p)
  {
    hide Bit, PlaneNot;
    NotBit(a.zone, p.Index());
    NotBit(a.black, p.Index());
    NotBit(a.white, p.Index());
  }
}
