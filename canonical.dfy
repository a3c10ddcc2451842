/**
 * The canonical form `minimize` computes: of the eight symmetric images of
 * the zone, each cropped by `calculate_offset`, the smallest as an unsigned
 * integer, the first one winning ties; the stones follow the chosen
 * symmetry and shift.
 */
module Canonical {
  import opened Cells
  import opened Transforms
  import opened Symmetry
  import opened Crop
  import opened Positions

  /** `x >> n`: the plane moved toward bit 0 by `n` places. */
  function ShiftDown(x: u64, n: u32): u64
    requires n < 64
  {
    x >> n
  }

  /** A plane moved down and left by its own `calculate_offset`. */
  function Cropped(x: u64): u64 {
    ShiftDown(x, CalculateOffset(x))
  }

  /** Image `i` of a zone, cropped: the value `minimize` compares for index `i`. */
  function Candidate(x: u64, i: u8): u64
    requires i < 8
  {
    Cropped(Walk(x, i))
  }

  /** The eight values `minimize` compares, in the order it visits them. */
  function Candidates(x: u64): (s: seq<u64>)
    ensures |s| == 8
  {
    seq(8, i requires 0 <= i < 8 => Candidate(x, i as u8))
  }

  /**
   * The index among the first `n` values that a left-to-right scan settles
   * on when a later value replaces the current one only if it is strictly
   * smaller: no value is below it, and every value before it is above it.
   */
  function FirstMinimum(s: seq<u64>, n: nat): (r: nat)
    requires 0 < n <= |s|
    ensures r < n
    ensures forall j :: 0 <= j < n ==> !PlaneBelow(s[j], s[r])
    ensures forall j :: 0 <= j < r ==> PlaneBelow(s[r], s[j])
  {
    if n == 1 then
      NotBelowSelf(s[0]);
      0
    else
      var r := FirstMinimum(s, n - 1);
      if PlaneBelow(s[n - 1], s[r]) then
        LastIsMinimum(s, n, r);
        n - 1
      else
        NotBelowSelf(s[r]);
        r
  }

  /** A value below the minimum of the first `n - 1` values is the minimum of the first `n`. */
  lemma LastIsMinimum(s: seq<u64>, n: nat, r: nat)
    requires r < n - 1 && n <= |s|
    requires forall j :: 0 <= j < n - 1 ==> !PlaneBelow(s[j], s[r])
    requires PlaneBelow(s[n - 1], s[r])
    ensures forall j :: 0 <= j < n ==> !PlaneBelow(s[j], s[n - 1])
    ensures forall j :: 0 <= j < n - 1 ==> PlaneBelow(s[n - 1], s[j])
  {
    hide PlaneBelow;
    forall j | 0 <= j < n
      ensures !PlaneBelow(s[j], s[n - 1])
      ensures j < n - 1 ==> PlaneBelow(s[n - 1], s[j])
    {
      NotBelowSelf(s[n - 1]);
      BelowTransitive(s[n - 1], s[r], s[j]);
      BelowTransitive(s[j], s[n - 1], s[r]);
    }
  }

  /** The two properties of `FirstMinimum` single it out: no other index has both. */
  lemma FirstMinimumUnique(s: seq<u64>, n: nat, k: nat)
    requires k < n <= |s|
    requires forall j :: 0 <= j < n ==> !PlaneBelow(s[j], s[k])
    requires forall j :: 0 <= j < k ==> PlaneBelow(s[k], s[j])
    ensures FirstMinimum(s, n) == k
  {
    hide PlaneBelow;
    var r := FirstMinimum(s, n);
    assert !PlaneBelow(s[r], s[k]) && !PlaneBelow(s[k], s[r]);
  }

  /** Every value of `s` is a value of `t`. */
  predicate ValuesIn(s: seq<u64>, t: seq<u64>) {
    forall i :: 0 <= i < |s| ==> exists j :: 0 <= j < |t| && s[i] == t[j]
  }

  /** Two sequences holding the same values have the same least value. */
  lemma SameValuesSameMinimum(s: seq<u64>, t: seq<u64>)
    requires |s| > 0 && |t| > 0
    requires ValuesIn(s, t) && ValuesIn(t, s)
    ensures s[FirstMinimum(s, |s|)] == t[FirstMinimum(t, |t|)]
  {
    hide PlaneBelow;
    var a, b := s[FirstMinimum(s, |s|)], t[FirstMinimum(t, |t|)];
    var j :| 0 <= j < |t| && a == t[j];
    var i :| 0 <= i < |s| && b == s[i];
    BelowTotal(a, b);
  }

  /** The symmetry `minimize` chooses for a zone. */
  function MinimumIndex(x: u64): (k: u8)
    ensures k < 8
  {
    var r := FirstMinimum(Candidates(x), 8);
    SmallIndex(r);
    r as u8
  }

  /** The member `isomorphize`: symmetry `i` applied to all three planes. */
  function Isomorphized(pos: Position, i: u32): Position {
    Position(Isomorphize(pos.zone, i), Isomorphize(pos.black, i), Isomorphize(pos.white, i))
  }

  /** All three planes moved down by the same shift. */
  function Shifted(pos: Position, offset: u32): Position
    requires offset < 64
  {
    Position(ShiftDown(pos.zone, offset), ShiftDown(pos.black, offset), ShiftDown(pos.white, offset))
  }

  /**
   * The position after `minimize`: the zone is the chosen cropped image;
   * the stones get `isomorphize` with the chosen index and the zone's shift.
   */
  function Minimized(pos: Position): Position {
    var k := MinimumIndex(pos.zone);
    var offset := CalculateOffset(Walk(pos.zone, k));
    Position(Candidate(pos.zone, k), ShiftDown(Isomorphize(pos.black, k as u32), offset), ShiftDown(Isomorphize(pos.white, k as u32), offset))
  }

  lemma CandidateAt(x: u64, i: u8)
    requires i < 8
    ensures Candidates(x)[i as int] == Candidate(x, i)
  {
  }

  /**
   * The zone `minimize` leaves is the candidate at the chosen index; no
   * candidate is below it, and every candidate before it is above it.
   */
  lemma MinimizedZone(pos: Position)
    ensures Minimized(pos).zone == Candidate(pos.zone, MinimumIndex(pos.zone))
    ensures forall i: u8 :: i < 8 ==> !PlaneBelow(Candidate(pos.zone, i), Minimized(pos).zone)
    ensures forall i: u8 :: i < MinimumIndex(pos.zone) ==> PlaneBelow(Minimized(pos).zone, Candidate(pos.zone, i))
  {
    hide PlaneBelow, Candidate, Candidates;
    var s := Candidates(pos.zone);
    var r := FirstMinimum(s, 8);
    var k := MinimumIndex(pos.zone);
    SmallIndex(r);
    CandidateAt(pos.zone, k);
    forall i: u8 | i < 8
      ensures !PlaneBelow(Candidate(pos.zone, i), s[r])
      ensures i < k ==> PlaneBelow(s[r], Candidate(pos.zone, i))
    {
      CandidateAt(pos.zone, i);
    }
  }

  /** Ties go to the lowest index: an index with both properties of `MinimizedZone` is the one chosen. */
  lemma MinimumIndexUnique(x: u64, k: u8)
    requires k < 8
    requires forall i: u8 :: i < 8 ==> !PlaneBelow(Candidate(x, i), Candidate(x, k))
    requires forall i: u8 :: i < k ==> PlaneBelow(Candidate(x, k), Candidate(x, i))
    ensures MinimumIndex(x) == k
  {
    hide PlaneBelow, Candidate, Candidates;
    var s := Candidates(x);
    forall j | 0 <= j < 8
      ensures !PlaneBelow(s[j], s[k])
      ensures j < k as int ==> PlaneBelow(s[k], s[j])
    {
      CandidateAt(x, j as u8);
      CandidateAt(x, k);
    }
    FirstMinimumUnique(s, 8, k as int);
  }

  /** `get` on the image reads, at the image of a cell, what `get` read at the cell. */
  lemma GetIsomorphized(pos: Position, i: u32, p: Point)
    requires p.OnBoard()
    ensures var q := Image((i % 8) as u8, p);
            Isomorphized(pos, i).Get(q.col as u32, q.row as u32) == pos.Get(p.col as u32, p.row as u32)
  {
    hide Position.Get, Cell, Isomorphize, Image;
    var q := Image((i % 8) as u8, p);
    GetPoint(Isomorphized(pos, i), q);
    GetPoint(pos, p);
    IsomorphizeCell(pos.zone, i, p);
    IsomorphizeCell(pos.black, i, p);
    IsomorphizeCell(pos.white, i, p);
  }

  /** `GetCell` at a point of the board. */
  lemma GetPoint(pos: Position, p: Point)
    requires p.OnBoard()
    ensures (p.col as u32) < 7 && (p.row as u32) < 7
    ensures pos.Get(p.col as u32, p.row as u32) ==
      if !Cell(pos.zone, p) then Irrelevant
      else (if Cell(pos.black, p) then ZoneBlack else ZoneEmpty) + (if Cell(pos.white, p) then ZoneWhite else ZoneEmpty)
  {
    hide Position.Get, Cell;
    Widened(p);
    GetCell(pos, p.col as u32, p.row as u32);
  }

  lemma Widened(p: Point)
    requires p.OnBoard()
    ensures (p.col as u32) < 7 && (p.row as u32) < 7
    ensures Point((p.col as u32) as u8, (p.row as u32) as u8) == p
  {
  }

  /** On on-board planes, the inverse symmetry undoes `isomorphize` on the whole position. */
  lemma IsomorphizedInverse(pos: Position, i: u32)
    requires OnBoardOnly(pos.zone) && OnBoardOnly(pos.black) && OnBoardOnly(pos.white)
    ensures Inverse((i % 8) as u8) < 8
    ensures Isomorphized(Isomorphized(pos, i), Inverse((i % 8) as u8) as u32) == pos
  {
    hide Isomorphize, Inverse, OnBoardOnly;
    IsomorphizeInverse(pos.zone, i);
    IsomorphizeInverse(pos.black, i);
    IsomorphizeInverse(pos.white, i);
  }

  /** The zone `minimize` leaves is the least of the candidates. */
  lemma MinimizedIsLeast(pos: Position)
    ensures Minimized(pos).zone == Candidates(pos.zone)[FirstMinimum(Candidates(pos.zone), 8)]
  {
    hide Candidate, Candidates, FirstMinimum;
    var r := FirstMinimum(Candidates(pos.zone), 8);
    SmallIndex(r);
    CandidateAt(pos.zone, r as u8);
  }

  lemma WideIndex(i: u8)
    requires i < 8
    ensures ((i as u32) % 8) as u8 == i
  {
  }

  /** On an on-board zone, the walk of a symmetric image is the walk to the composed symmetry. */
  lemma WalkIsomorphizeCompose(x: u64, j: u32, i: u8)
    requires OnBoardOnly(x) && i < 8
    ensures Compose(i, (j % 8) as u8) < 8
    ensures Walk(Isomorphize(x, j), i) == Walk(x, Compose(i, (j % 8) as u8))
  {
    hide *;
    var c := Compose(i, (j % 8) as u8);
    IsomorphizeOnBoard(x, j);
    WalkIsomorphize(Isomorphize(x, j), i);
    IsomorphizeCompose(x, i as u32, j);
    WideIndex(i);
    WalkIsomorphize(x, c);
  }

  /**
   * The candidates of a symmetric image of an on-board zone are the
   * candidates of the zone, reordered by composing the symmetries.
   */
  lemma CandidateIsomorphize(x: u64, j: u32, i: u8)
    requires OnBoardOnly(x) && i < 8
    ensures Compose(i, (j % 8) as u8) < 8
    ensures Candidate(Isomorphize(x, j), i) == Candidate(x, Compose(i, (j % 8) as u8))
  {
    hide Walk, Isomorphize, Cropped, Compose, OnBoardOnly;
    WalkIsomorphizeCompose(x, j, i);
  }

  /** Every candidate of a symmetric image of an on-board zone is a candidate of the zone. */
  lemma CandidatesAppear(x: u64, j: u32)
    requires OnBoardOnly(x)
    ensures ValuesIn(Candidates(Isomorphize(x, j)), Candidates(x))
  {
    hide Candidates, Candidate, Isomorphize, Compose, OnBoardOnly;
    var s, t := Candidates(Isomorphize(x, j)), Candidates(x);
    forall i | 0 <= i < 8
      ensures exists k :: 0 <= k < 8 && s[i] == t[k]
    {
      SmallIndex(i);
      CandidateAt(Isomorphize(x, j), i as u8);
      CandidateIsomorphize(x, j, i as u8);
      var c := Compose(i as u8, (j % 8) as u8);
      CandidateAt(x, c);
      assert s[i] == t[c as int];
    }
  }

  /**
   * `minimize` leaves the same zone for every symmetric image of an
   * on-board zone: the zone it produces is a canonical form.
   */
  lemma MinimizedInvariant(pos: Position, j: u32)
    requires OnBoardOnly(pos.zone)
    ensures Minimized(Isomorphized(pos, j)).zone == Minimized(pos).zone
  {
    hide Candidates, Candidate, Cropped, Walk, Isomorphize, Minimized, FirstMinimum, MinimumIndex, Inverse, OnBoardOnly;
    var x := pos.zone;
    var y := Isomorphize(x, j);
    var inv := Inverse((j % 8) as u8);
    IsomorphizeInverse(x, j);
    IsomorphizeOnBoard(x, j);
    CandidatesAppear(x, j);
    CandidatesAppear(y, inv as u32);
    SameValuesSameMinimum(Candidates(y), Candidates(x));
    MinimizedIsLeast(pos);
    MinimizedIsLeast(Isomorphized(pos, j));
  }

  /**
   * On an on-board zone the three planes get the same symmetry, the one
   * `isomorphize` numbers with the chosen index, and the same shift.
   */
  lemma MinimizedMovesAllPlanes(pos: Position)
    requires OnBoardOnly(pos.zone)
    ensures var k := MinimumIndex(pos.zone) as u32;
            Minimized(pos) == Shifted(Isomorphized(pos, k), CalculateOffset(Isomorphize(pos.zone, k)))
  {
    hide Walk, Isomorphize, CalculateOffset, MinimumIndex, OnBoardOnly, ShiftDown;
    WalkIsomorphize(pos.zone, MinimumIndex(pos.zone));
  }

  /** A plane both `flip` and `transpose` leave alone is every step of the walk. */
  lemma {:induction false} WalkFixed(x: u64, i: u8)
    requires i < 8 && Flip(x) == x && Transpose(x) == x
    ensures Walk(x, i) == x
    decreases i
  {
    hide Flip, Transpose;
    if i > 0 {
      WalkFixed(x, i - 1);
    }
  }

  /** A single bit above the board: `flip` and `transpose` leave it, `mirror` drops it. */
  lemma HighBitSymmetric()
    ensures Flip(0x2_0000_0000_0000) == 0x2_0000_0000_0000
    ensures Transpose(0x2_0000_0000_0000) == 0x2_0000_0000_0000
    ensures Mirror(0x2_0000_0000_0000) == 0
  {
  }

  /**
   * Off the board the walk and `isomorphize` disagree: the walk keeps
   * the bits above 48, while `mirror` inside `isomorphize` drops them.
   */
  lemma WalkKeepsHighBits()
    ensures Walk(0x2_0000_0000_0000, 4) == 0x2_0000_0000_0000
    ensures Isomorphize(0x2_0000_0000_0000, 4) == 0
  {
    hide Flip, Transpose, Mirror;
    HighBitSymmetric();
    WalkFixed(0x2_0000_0000_0000, 4);
  }

  lemma FullBoardSymmetric()
    ensures Flip(FullBoard) == FullBoard && Transpose(FullBoard) == FullBoard
    ensures CalculateOffset(FullBoard) == 0
  {
  }

  lemma EmptySymmetric()
    ensures Flip(0) == 0 && Transpose(0) == 0
  {
  }

  /** A zone every one of whose cropped images is itself is chosen at index 0. */
  lemma AllCandidatesEqual(x: u64)
    requires Flip(x) == x && Transpose(x) == x
    ensures MinimumIndex(x) == 0
    ensures forall i: u8 :: i < 8 ==> Candidate(x, i) == Cropped(x)
  {
    hide Flip, Transpose, Cropped, PlaneBelow, MinimumIndex;
    forall i: u8 | i < 8
      ensures Candidate(x, i) == Cropped(x)
    {
      WalkFixed(x, i);
    }
    NotBelowSelf(Cropped(x));
    MinimumIndexUnique(x, 0);
  }

  /** The full zone is its own canonical form: `minimize` changes nothing. */
  lemma FullZoneFixed(black: u64, white: u64)
    ensures Minimized(Position(FullBoard, black, white)) == Position(FullBoard, black, white)
  {
    hide Flip, Transpose, CalculateOffset, Walk, Isomorphize, MinimumIndex, ShiftDown;
    FullBoardSymmetric();
    AllCandidatesEqual(FullBoard);
    WalkFixed(FullBoard, 0);
    IsomorphizeIdentity(black);
    IsomorphizeIdentity(white);
    ShiftDownNone(FullBoard);
    ShiftDownNone(black);
    ShiftDownNone(white);
  }

  /** An empty zone stays empty, and the stones are shifted down by 48 bits. */
  lemma EmptyZoneShifted(black: u64, white: u64)
    ensures Minimized(Position(0, black, white)) == Position(0, black >> 48, white >> 48)
  {
    hide Flip, Transpose, CalculateOffset, Walk, Isomorphize, MinimumIndex;
    EmptySymmetric();
    CalculateOffsetEmpty();
    AllCandidatesEqual(0);
    WalkFixed(0, 0);
    IsomorphizeIdentity(black);
    IsomorphizeIdentity(white);
  }

  /**
   * Only the zone is canonical: a stone on a corner of the full zone and
   * the same stone flipped to another corner are left as they are, so two
   * symmetric positions can minimize to different positions.
   */
  lemma StonesNotCanonical()
    ensures Minimized(Isomorphized(Position(FullBoard, 1, 0), 1)).zone == Minimized(Position(FullBoard, 1, 0)).zone
    ensures Minimized(Isomorphized(Position(FullBoard, 1, 0), 1)) != Minimized(Position(FullBoard, 1, 0))
  {
    hide Flip, Transpose, Minimized;
    FullBoardSymmetric();
    EmptySymmetric();
    FlipCorner();
    FullZoneFixed(1, 0);
    FullZoneFixed(0x400_0000_0000, 0);
  }

  /** `flip` moves the cell in column 0, row 0 to column 0, row 6. */
  lemma FlipCorner()
    ensures Flip(1) == 0x400_0000_0000
  {
  }

  lemma CroppedIsShift(x: u64)
    ensures Cropped(x) == x >> CalculateOffset(x)
  {
    hide CalculateOffset;
  }

  lemma ShiftDownNone(x: u64)
    ensures ShiftDown(x, 0) == x
  {
  }

  /** Symmetry 0 is the identity. */
  lemma IsomorphizeIdentity(x: u64)
    ensures Isomorphize(x, 0) == x
  {
  }

  lemma FlipNonZero(x: u64)
    requires x != 0
    ensures Flip(x) != 0
  {
    hide Flip;
    FlipInvolution(x);
    EmptySymmetric();
  }

  lemma TransposeNonZero(x: u64)
    requires x != 0
    ensures Transpose(x) != 0
  {
    hide Transpose;
    TransposeInvolution(x);
    EmptySymmetric();
  }

  /** No step of the walk empties a plane. */
  lemma {:induction false} WalkNonZero(x: u64, i: u8)
    requires i < 8 && x != 0
    ensures Walk(x, i) != 0
    decreases i
  {
    hide Flip, Transpose;
    if i > 0 {
      WalkNonZero(x, i - 1);
      if i % 2 == 1 {
        FlipNonZero(Walk(x, i - 1));
      } else {
        TransposeNonZero(Walk(x, i - 1));
      }
    }
  }

  /** The zone `minimize` leaves is already cropped: cropping it again moves nothing. */
  lemma MinimizedCropped(pos: Position)
    requires pos.zone != 0
    ensures CalculateOffset(Minimized(pos).zone) == 0
  {
    hide Walk, CalculateOffset, MinimumIndex, ShiftDown;
    var w := Walk(pos.zone, MinimumIndex(pos.zone));
    WalkNonZero(pos.zone, MinimumIndex(pos.zone));
    CropIdempotent(w);
    CroppedIsShift(w);
  }
}
