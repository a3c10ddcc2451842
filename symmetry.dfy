/**
 * The eight symmetries of the square: the header's static `isomorphize`,
 * which composes `transpose`, `flip` and `mirror`, and `store_isomorphisms`,
 * which reaches the same eight images by alternating `flip` and `transpose`.
 */
module Symmetry {
  import opened Cells
  import opened Transforms

  /**
   * Symmetry `i % 8` of one plane. The header's switch falls through from
   * case 6 into 1, from 4 into 5 and from 3 into 2 into 7; this is the
   * composition each case ends up applying.
   */
  function Isomorphize(x: u64, i: u32): u64 {
    var k := i % 8;
    if k == 6 then Flip(Transpose(x))
    else if k == 1 then Flip(x)
    else if k == 4 then Mirror(Flip(x))
    else if k == 5 then Mirror(x)
    else if k == 3 then Transpose(Flip(Mirror(x)))
    else if k == 2 then Transpose(Flip(x))
    else if k == 7 then Transpose(x)
    else x
  }

  /** Where symmetry `i` sends the cell at `p`. */
  function Image(i: u8, p: Point): (q: Point)
    requires i < 8 && p.OnBoard()
    ensures q.OnBoard()
  {
    var c, r := p.col, p.row;
    if i == 0 then Point(c, r)
    else if i == 1 then Point(c, 6 - r)
    else if i == 2 then Point(6 - r, c)
    else if i == 3 then Point(6 - r, 6 - c)
    else if i == 4 then Point(6 - c, 6 - r)
    else if i == 5 then Point(6 - c, r)
    else if i == 6 then Point(r, 6 - c)
    else Point(r, c)
  }

  /** The symmetry that undoes symmetry `i`: the two quarter turns undo each other. */
  function Inverse(i: u8): u8
    requires i < 8
  {
    if i == 2 then 6 else if i == 6 then 2 else i
  }

  lemma ImageInverse(i: u8, p: Point)
    requires i < 8 && p.OnBoard()
    ensures Inverse(i) < 8
    ensures Image(Inverse(i), Image(i, p)) == p && Image(i, Image(Inverse(i), p)) == p
  {
  }

  /** `Compose(i, j)` is symmetry `j` followed by symmetry `i`. */
  function Compose(i: u8, j: u8): (k: u8)
    requires i < 8 && j < 8
    ensures k < 8
  {
    var row :=
      if i == 0 then [0, 1, 2, 3, 4, 5, 6, 7]
      else if i == 1 then [1, 0, 3, 2, 5, 4, 7, 6]
      else if i == 2 then [2, 7, 4, 1, 6, 3, 0, 5]
      else if i == 3 then [3, 6, 5, 0, 7, 2, 1, 4]
      else if i == 4 then [4, 5, 6, 7, 0, 1, 2, 3]
      else if i == 5 then [5, 4, 7, 6, 1, 0, 3, 2]
      else if i == 6 then [6, 3, 0, 5, 2, 7, 4, 1]
      else [7, 2, 1, 4, 3, 6, 5, 0];
    row[j]
  }

  lemma ImageCompose(i: u8, j: u8, p: Point)
    requires i < 8 && j < 8 && p.OnBoard()
    ensures Image(i, Image(j, p)) == Image(Compose(i, j), p)
  {
    hide Image, Compose;
    if i == 0 {
      ImageComposeRow0(i, j, p);
    } else if i == 1 {
      ImageComposeRow1(i, j, p);
    } else if i == 2 {
      ImageComposeRow2(i, j, p);
    } else if i == 3 {
      ImageComposeRow3(i, j, p);
    } else if i == 4 {
      ImageComposeRow4(i, j, p);
    } else if i == 5 {
      ImageComposeRow5(i, j, p);
    } else if i == 6 {
      ImageComposeRow6(i, j, p);
    } else {
      ImageComposeRow7(i, j, p);
    }
  }

  lemma ImageComposeRow0(i: u8, j: u8, p: Point)
    requires i == 0 && j < 8 && p.OnBoard()
    ensures Image(i, Image(j, p)) == Image(Compose(i, j), p)
  {
  }

  lemma ImageComposeRow1(i: u8, j: u8, p: Point)
    requires i == 1 && j < 8 && p.OnBoard()
    ensures Image(i, Image(j, p)) == Image(Compose(i, j), p)
  {
  }

  lemma ImageComposeRow2(i: u8, j: u8, p: Point)
    requires i == 2 && j < 8 && p.OnBoard()
    ensures Image(i, Image(j, p)) == Image(Compose(i, j), p)
  {
  }

  lemma ImageComposeRow3(i: u8, j: u8, p: Point)
    requires i == 3 && j < 8 && p.OnBoard()
    ensures Image(i, Image(j, p)) == Image(Compose(i, j), p)
  {
  }

  lemma ImageComposeRow4(i: u8, j: u8, p: Point)
    requires i == 4 && j < 8 && p.OnBoard()
    ensures Image(i, Image(j, p)) == Image(Compose(i, j), p)
  {
  }

  lemma ImageComposeRow5(i: u8, j: u8, p: Point)
    requires i == 5 && j < 8 && p.OnBoard()
    ensures Image(i, Image(j, p)) == Image(Compose(i, j), p)
  {
  }

  lemma ImageComposeRow6(i: u8, j: u8, p: Point)
    requires i == 6 && j < 8 && p.OnBoard()
    ensures Image(i, Image(j, p)) == Image(Compose(i, j), p)
  {
  }

  lemma ImageComposeRow7(i: u8, j: u8, p: Point)
    requires i == 7 && j < 8 && p.OnBoard()
    ensures Image(i, Image(j, p)) == Image(Compose(i, j), p)
  {
  }

  /** Symmetry `i` of a plane has at `Image(i % 8, p)` what the plane has at `p`. */
  lemma IsomorphizeCell(x: u64, i: u32, p: Point)
    requires p.OnBoard()
    ensures Cell(Isomorphize(x, i), Image((i % 8) as u8, p)) == Cell(x, p)
  {
    hide Flip, Transpose, Mirror;
    var k := i % 8;
    if k == 0 {
    } else if k == 1 {
      IsomorphizeCellFlip(x, i, p);
    } else if k == 2 {
      IsomorphizeCellQuarter(x, i, p);
    } else if k == 3 {
      IsomorphizeCellAntiDiagonal(x, i, p);
    } else if k == 4 {
      IsomorphizeCellHalf(x, i, p);
    } else if k == 5 {
      IsomorphizeCellMirror(x, i, p);
    } else if k == 6 {
      IsomorphizeCellThreeQuarters(x, i, p);
    } else {
      IsomorphizeCellTranspose(x, i, p);
    }
  }

  lemma IsomorphizeCellFlip(x: u64, i: u32, p: Point)
    requires i % 8 == 1 && p.OnBoard()
    ensures Cell(Isomorphize(x, i), Image((i % 8) as u8, p)) == Cell(x, p)
  {
    hide Flip, Transpose, Mirror;
    FlipCell(x, p);
  }

  lemma IsomorphizeCellQuarter(x: u64, i: u32, p: Point)
    requires i % 8 == 2 && p.OnBoard()
    ensures Cell(Isomorphize(x, i), Image((i % 8) as u8, p)) == Cell(x, p)
  {
    hide Flip, Transpose, Mirror;
    FlipCell(x, p);
    TransposeCell(Flip(x), Point(p.col, 6 - p.row));
  }

  lemma IsomorphizeCellAntiDiagonal(x: u64, i: u32, p: Point)
    requires i % 8 == 3 && p.OnBoard()
    ensures Cell(Isomorphize(x, i), Image((i % 8) as u8, p)) == Cell(x, p)
  {
    hide Flip, Transpose, Mirror;
    MirrorCell(x, p);
    FlipCell(Mirror(x), Point(6 - p.col, p.row));
    TransposeCell(Flip(Mirror(x)), Point(6 - p.col, 6 - p.row));
  }

  lemma IsomorphizeCellHalf(x: u64, i: u32, p: Point)
    requires i % 8 == 4 && p.OnBoard()
    ensures Cell(Isomorphize(x, i), Image((i % 8) as u8, p)) == Cell(x, p)
  {
    hide Flip, Transpose, Mirror;
    FlipCell(x, p);
    MirrorCell(Flip(x), Point(p.col, 6 - p.row));
  }

  lemma IsomorphizeCellMirror(x: u64, i: u32, p: Point)
    requires i % 8 == 5 && p.OnBoard()
    ensures Cell(Isomorphize(x, i), Image((i % 8) as u8, p)) == Cell(x, p)
  {
    hide Flip, Transpose, Mirror;
    MirrorCell(x, p);
  }

  lemma IsomorphizeCellThreeQuarters(x: u64, i: u32, p: Point)
    requires i % 8 == 6 && p.OnBoard()
    ensures Cell(Isomorphize(x, i), Image((i % 8) as u8, p)) == Cell(x, p)
  {
    hide Flip, Transpose, Mirror;
    TransposeCell(x, p);
    FlipCell(Transpose(x), Point(p.row, p.col));
  }

  lemma IsomorphizeCellTranspose(x: u64, i: u32, p: Point)
    requires i % 8 == 7 && p.OnBoard()
    ensures Cell(Isomorphize(x, i), Image((i % 8) as u8, p)) == Cell(x, p)
  {
    hide Flip, Transpose, Mirror;
    TransposeCell(x, p);
  }

  /** A plane that carries the cells of `x` moved by symmetry `k` has at `q` what `x` has where `q` came from. */
  lemma ImageCellBack(y: u64, x: u64, k: u8, q: Point)
    requires k < 8 && q.OnBoard()
    requires forall p: Point :: p.OnBoard() ==> Cell(y, Image(k, p)) == Cell(x, p)
    ensures Inverse(k) < 8 && Cell(y, q) == Cell(x, Image(Inverse(k), q))
  {
    hide *;
    ImageInverse(k, q);
    var p := Image(Inverse(k), q);
    assert Cell(y, Image(k, p)) == Cell(x, p);
  }

  /** Two on-board planes that carry the same cells after the same symmetry are equal. */
  lemma SameImage(y: u64, z: u64, x: u64, k: u8)
    requires k < 8 && OnBoardOnly(y) && OnBoardOnly(z)
    requires forall p: Point :: p.OnBoard() ==> Cell(y, Image(k, p)) == Cell(x, p)
    requires forall p: Point :: p.OnBoard() ==> Cell(z, Image(k, p)) == Cell(x, p)
    ensures y == z
  {
    hide Cell, Image;
    forall q: Point | q.OnBoard()
      ensures Cell(y, q) == Cell(z, q)
    {
      ImageCellBack(y, x, k, q);
      ImageCellBack(z, x, k, q);
    }
    CellsDetermine(y, z);
  }

  /** Every symmetry keeps a plane on the board. */
  lemma IsomorphizeOnBoard(x: u64, i: u32)
    requires OnBoardOnly(x)
    ensures OnBoardOnly(Isomorphize(x, i))
  {
    hide Flip, Transpose, Mirror;
    TransposeHighBits(x);
    FlipHighBits(x);
    MirrorAllColumns(x);
    TransposeHighBits(Flip(x));
    FlipHighBits(Transpose(x));
    MirrorAllColumns(Flip(x));
    FlipHighBits(Mirror(x));
    TransposeHighBits(Flip(Mirror(x)));
  }

  /** Symmetry `j` followed by symmetry `i` moves each cell as symmetry `Compose(i, j)` does. */
  lemma IsomorphizeComposeCell(x: u64, i: u32, j: u32, p: Point)
    requires p.OnBoard()
    ensures Cell(Isomorphize(Isomorphize(x, j), i), Image(Compose((i % 8) as u8, (j % 8) as u8), p)) == Cell(x, p)
  {
    hide *;
    ImageCompose((i % 8) as u8, (j % 8) as u8, p);
    IsomorphizeCell(x, j, p);
    IsomorphizeCell(Isomorphize(x, j), i, Image((j % 8) as u8, p));
  }

  /** Symmetry `j` followed by symmetry `i` is symmetry `Compose(i, j)`. */
  lemma IsomorphizeCompose(x: u64, i: u32, j: u32)
    requires OnBoardOnly(x)
    ensures Isomorphize(Isomorphize(x, j), i) == Isomorphize(x, Compose((i % 8) as u8, (j % 8) as u8) as u32)
  {
    hide *;
    var c := Compose((i % 8) as u8, (j % 8) as u8);
    IsomorphizeOnBoard(x, j);
    IsomorphizeOnBoard(Isomorphize(x, j), i);
    IsomorphizeOnBoard(x, c as u32);
    forall p: Point | p.OnBoard()
      ensures Cell(Isomorphize(Isomorphize(x, j), i), Image(c, p)) == Cell(x, p)
      ensures Cell(Isomorphize(x, c as u32), Image(c, p)) == Cell(x, p)
    {
      IsomorphizeComposeCell(x, i, j, p);
      IsomorphizeCell(x, c as u32, p);
    }
    SameImage(Isomorphize(Isomorphize(x, j), i), Isomorphize(x, c as u32), x, c);
  }

  lemma ComposeInverse(k: u8)
    requires k < 8
    ensures Inverse(k) < 8 && Compose(Inverse(k), k) == 0
  {
  }

  /** Undoing symmetry `i` gives back every on-board plane. */
  lemma IsomorphizeInverse(x: u64, i: u32)
    requires OnBoardOnly(x)
    ensures Inverse((i % 8) as u8) < 8
    ensures Isomorphize(Isomorphize(x, i), Inverse((i % 8) as u8) as u32) == x
  {
    hide Flip, Transpose, Mirror;
    var k := (i % 8) as u8;
    ComposeInverse(k);
    IsomorphizeCompose(x, Inverse(k) as u32, i);
  }

  /**
   * The `i`-th plane `store_isomorphisms` writes: the walk starts at the
   * plane itself and applies `flip` at odd steps and `transpose` at even ones.
   */
  function Walk(x: u64, i: u8): u64
    requires i < 8
    decreases i
  {
    if i == 0 then x
    else if i % 2 == 1 then Flip(Walk(x, i - 1))
    else Transpose(Walk(x, i - 1))
  }

  /** An odd step of the walk is a `flip`: it moves the cell the way `Image` steps from `i - 1` to `i`. */
  lemma FlipStepCell(y: u64, i: u8, p: Point)
    requires 0 < i < 8 && i % 2 == 1 && p.OnBoard()
    ensures Cell(Flip(y), Image(i, p)) == Cell(y, Image((i - 1), p))
  {
    hide Flip, Transpose, Mirror;
    FlipCell(y, Image((i - 1), p));
  }

  /** An even step of the walk is a `transpose`. */
  lemma TransposeStepCell(y: u64, i: u8, p: Point)
    requires 0 < i < 8 && i % 2 == 0 && p.OnBoard()
    ensures Cell(Transpose(y), Image(i, p)) == Cell(y, Image((i - 1), p))
  {
    hide Flip, Transpose, Mirror;
    TransposeCell(y, Image((i - 1), p));
  }

  lemma WalkStepCell(x: u64, i: u8, p: Point)
    requires 0 < i < 8 && p.OnBoard()
    ensures Cell(Walk(x, i), Image(i, p)) == Cell(Walk(x, i - 1), Image((i - 1), p))
  {
    hide Flip, Transpose, Mirror;
    if i % 2 == 1 {
      FlipStepCell(Walk(x, i - 1), i, p);
    } else {
      TransposeStepCell(Walk(x, i - 1), i, p);
    }
  }

  /** Step `i` of the walk moves each cell as symmetry `i` does. */
  lemma {:induction false} WalkCell(x: u64, i: u8, p: Point)
    requires i < 8 && p.OnBoard()
    ensures Cell(Walk(x, i), Image(i, p)) == Cell(x, p)
    decreases i
  {
    hide Flip, Transpose, Mirror, Cell;
    if i > 0 {
      WalkCell(x, i - 1, p);
      WalkStepCell(x, i, p);
    }
  }

  /** The walk never touches the bits above the board. */
  lemma {:induction false} WalkHighBits(x: u64, i: u8)
    requires i < 8
    ensures Walk(x, i) >> 49 == x >> 49
    decreases i
  {
    hide Flip, Transpose, Mirror;
    if i > 0 {
      var y := Walk(x, i - 1);
      WalkHighBits(x, i - 1);
      if i % 2 == 1 {
        FlipHighBits(y);
      } else {
        TransposeHighBits(y);
      }
    }
  }

  /** On an on-board plane the walk reaches the eight symmetries in the order `isomorphize` numbers them. */
  lemma WalkIsomorphize(x: u64, i: u8)
    requires i < 8 && OnBoardOnly(x)
    ensures Walk(x, i) == Isomorphize(x, i as u32)
  {
    hide Flip, Transpose, Mirror, Cell, Isomorphize, Walk, Image;
    WalkHighBits(x, i);
    IsomorphizeOnBoard(x, i as u32);
    forall p: Point | p.OnBoard()
      ensures Cell(Walk(x, i), Image(i, p)) == Cell(x, p)
      ensures Cell(Isomorphize(x, i as u32), Image(i, p)) == Cell(x, p)
    {
      WalkCell(x, i, p);
      IsomorphizeCell(x, i as u32, p);
    }
    SameImage(Walk(x, i), Isomorphize(x, i as u32), x, i);
  }

  /** Eight planes, each `flip` or `transpose` of the one before, starting at `x`, are the walk. */
  lemma WalkTable(x: u64, s: seq<u64>)
    requires |s| == 8 && s[0] == x
    requires s[1] == Flip(s[0]) && s[2] == Transpose(s[1]) && s[3] == Flip(s[2]) && s[4] == Transpose(s[3])
    requires s[5] == Flip(s[4]) && s[6] == Transpose(s[5]) && s[7] == Flip(s[6])
    ensures forall i: u8 :: i < 8 ==> s[i] == Walk(x, i)
  {
    hide Flip, Transpose;
    assert s[1] == Walk(x, 1);
    assert s[2] == Walk(x, 2);
    assert s[3] == Walk(x, 3);
    assert s[4] == Walk(x, 4);
    assert s[5] == Walk(x, 5);
    assert s[6] == Walk(x, 6);
    assert s[7] == Walk(x, 7);
    forall i: u8 | i < 8
      ensures s[i] == Walk(x, i)
    {
      if i == 0 {
      } else if i == 1 {
      } else if i == 2 {
      } else if i == 3 {
      } else if i == 4 {
      } else if i == 5 {
      } else if i == 6 {
      } else {
      }
    }
  }

  /** The eight planes `store_isomorphisms` writes, in order. */
  function Walks(x: u64): (s: seq<u64>)
    ensures |s| == 8
  {
    seq(8, i requires 0 <= i < 8 => Walk(x, i as u8))
  }

  lemma SmallIndex(r: nat)
    requires r < 8
    ensures (r as u8) < 8 && (r as u8) as int == r
  {
  }

  /** The header's `store_isomorphisms`: fills the first eight slots with the walk. */
  method StoreIsomorphisms(x: u64, iso: array<u64>)
    requires iso.Length >= 8
    modifies iso
    ensures forall k :: 0 <= k < 8 ==> iso[k] == Walks(x)[k]
    ensures forall k :: 8 <= k < iso.Length ==> iso[k] == old(iso[k])
  {
    hide *;
    iso[0] := x;
    iso[1] := Flip(iso[0]);
    iso[2] := Transpose(iso[1]);
    iso[3] := Flip(iso[2]);
    iso[4] := Transpose(iso[3]);
    iso[5] := Flip(iso[4]);
    iso[6] := Transpose(iso[5]);
    iso[7] := Flip(iso[6]);
    WalkTable(x, iso[..8]);
    WalksTable(x, iso[..8]);
  }

  lemma WalksTable(x: u64, s: seq<u64>)
    requires |s| == 8
    requires forall i: u8 :: i < 8 ==> s[i] == Walk(x, i)
    ensures forall k :: 0 <= k < 8 ==> s[k] == Walks(x)[k]
  {
    hide Walk;
    forall k | 0 <= k < 8
      ensures s[k] == Walks(x)[k]
    {
      SmallIndex(k);
    }
  }
}
