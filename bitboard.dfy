/**
 * The class `Zone7x7Bitboard` with its three planes as fields and the
 * members that update them in place: `set`, the compound assignments, the
 * member transforms, `isomorphize` and `minimize`. Each method leaves the
 * board holding the position the value-level model of the same operation
 * computes from the board before the call.
 */
module Board {
  import opened Cells
  import Transforms
  import opened Symmetry
  import opened Crop
  import opened Positions
  import opened Canonical

  class Bitboard {
    var zone: u64
    var black: u64
    var white: u64

    /** The position the board holds. */
    function Value(): Position
      reads this
    {
      Position(zone, black, white)
    }

    /** The constructor; a plane left out is 0. */
    constructor (zone: u64 := 0, black: u64 := 0, white: u64 := 0)
      ensures Value() == Position(zone, black, white)
    {
      this.zone := zone;
      this.black := black;
      this.white := white;
    }

    /** `set`: the three cases of a piece type, and the default case that takes the cell out of the zone. */
    method Set(x: u32, y: u32, t: u32)
      requires x < 7 && y < 7
      modifies this
      ensures Value() == old(Value()).Set(x, y, t)
      ensures Value().Get(x, y) == if IsPiece(t) then t else Irrelevant
    {
      var mask := Mask(x, y);
      if t == ZoneEmpty {
        zone := PlaneOr(zone, mask);
        black := PlaneAnd(black, PlaneNot(mask));
        white := PlaneAnd(white, PlaneNot(mask));
      } else if t == ZoneBlack {
        zone := PlaneOr(zone, mask);
        black := PlaneOr(black, mask);
        white := PlaneAnd(white, PlaneNot(mask));
      } else if t == ZoneWhite {
        zone := PlaneOr(zone, mask);
        black := PlaneAnd(black, PlaneNot(mask));
        white := PlaneOr(white, mask);
      } else {
        zone := PlaneAnd(zone, PlaneNot(mask));
        black := PlaneAnd(black, PlaneNot(mask));
        white := PlaneAnd(white, PlaneNot(mask));
      }
      GetSet(old(Value()), x, y, t);
    }

    /** `operator&=`: the conjunction is formed before it is stored, so `z` may be this board. */
    method AndAssign(z: Bitboard)
      modifies this
      ensures Value() == old(Value()).And(old(z.Value()))
    {
      var r := Value().And(z.Value());
      zone, black, white := r.zone, r.black, r.white;
    }

    /** `operator|=`. */
    method OrAssign(z: Bitboard)
      modifies this
      ensures Value() == old(Value()).Or(old(z.Value()))
    {
      var r := Value().Or(z.Value());
      zone, black, white := r.zone, r.black, r.white;
    }

    /** `operator^=`. */
    method XorAssign(z: Bitboard)
      modifies this
      ensures Value() == old(Value()).Xor(old(z.Value()))
    {
      var r := Value().Xor(z.Value());
      zone, black, white := r.zone, r.black, r.white;
    }

    /** The member `transpose`: every plane reflected in the main diagonal. */
    method Transpose()
      modifies this
      ensures zone == Transforms.Transpose(old(zone))
      ensures black == Transforms.Transpose(old(black))
      ensures white == Transforms.Transpose(old(white))
    {
      zone := Transforms.Transpose(zone);
      black := Transforms.Transpose(black);
      white := Transforms.Transpose(white);
    }

    /** The member `flip`: the rows of every plane reversed. */
    method Flip()
      modifies this
      ensures zone == Transforms.Flip(old(zone))
      ensures black == Transforms.Flip(old(black))
      ensures white == Transforms.Flip(old(white))
    {
      zone := Transforms.Flip(zone);
      black := Transforms.Flip(black);
      white := Transforms.Flip(white);
    }

    /** The member `mirror`: the columns of every plane reversed by `mirror`'s loop. */
    method Mirror()
      modifies this
      ensures zone == Transforms.Mirror(old(zone))
      ensures black == Transforms.Mirror(old(black))
      ensures white == Transforms.Mirror(old(white))
    {
      zone := Transforms.MirrorLoop(zone);
      black := Transforms.MirrorLoop(black);
      white := Transforms.MirrorLoop(white);
    }

    /** The member `isomorphize`: symmetry `i` applied to every plane. */
    method Isomorphize(i: u32)
      modifies this
      ensures Value() == Isomorphized(old(Value()), i)
    {
      zone := Symmetry.Isomorphize(zone, i);
      black := Symmetry.Isomorphize(black, i);
      white := Symmetry.Isomorphize(white, i);
    }
  
    /**
     * `minimize`: the zone's eight images are stored, each is cropped in
     * turn, and a strictly smaller one replaces the current choice; then
     * the stones get the chosen symmetry and shift.
     */
    method Minimize()
      modifies this
      ensures Value() == Minimized(old(Value()))
    {
      hide Walk, Walks, Candidates, Candidate, Cropped, CalculateOffset, ShiftDown, PlaneBelow, FirstMinimum, Symmetry.Isomorphize, MinimumIndex;
      ghost var x := zone;
      var ziso := new u64[8];
      StoreIsomorphisms(zone, ziso);
      var min: nat := 0;
      var offset := CalculateOffset(zone);
      zone := ShiftDown(zone, offset);
      FirstCandidate(x);
      for i := 1 to 8
        invariant min < i
        invariant forall j :: i <= j < 8 ==> ziso[j] == Walks(x)[j]
        invariant FirstMinimum(Candidates(x), i) == min
        invariant zone == Candidates(x)[min] && offset == CalculateOffset(Walks(x)[min])
        invariant black == old(black) && white == old(white)
      {
        CandidateIs(x, i);
        var ofiso := CalculateOffset(ziso[i]);
        ziso[i] := ShiftDown(ziso[i], ofiso);
        ScanStep(Candidates(x), i, min);
        if PlaneBelow(ziso[i], zone) {
          min := i;
          offset := ofiso;
          zone := ziso[i];
        }
      }
      ChosenIndex(x, min);
      black := ShiftDown(Symmetry.Isomorphize(black, min as u32), offset);
      white := ShiftDown(Symmetry.Isomorphize(white, min as u32), offset);
    }
  }

  /** When the scan has seen all eight candidates, its choice is the index `minimize` uses. */
  lemma ChosenIndex(x: u64, min: nat)
    requires min < 8 && FirstMinimum(Candidates(x), 8) == min
    ensures MinimumIndex(x) == min as u8 && (min as u8) as u32 == min as u32
    ensures Candidates(x)[min] == Candidate(x, min as u8)
    ensures Walks(x)[min] == Walk(x, min as u8)
  {
    hide FirstMinimum, Candidates;
    SmallIndex(min);
    CandidateAt(x, min as u8);
  }

  /** The scan starts with the first candidate, the zone cropped. */
  lemma FirstCandidate(x: u64)
    ensures FirstMinimum(Candidates(x), 1) == 0
    ensures Walks(x)[0] == x && Candidates(x)[0] == ShiftDown(x, CalculateOffset(x))
  {
  }

  /** Candidate `i` is image `i` of the walk shifted by its own offset. */
  lemma CandidateIs(x: u64, i: nat)
    requires i < 8
    ensures (i as u8) < 8
    ensures Candidates(x)[i] == ShiftDown(Walks(x)[i], CalculateOffset(Walks(x)[i]))
  {
    hide Walk, CalculateOffset, ShiftDown, Candidates;
    SmallIndex(i);
    CandidateAt(x, i as u8);
  }

  /** One round of `minimize`'s loop extends the scan by candidate `i`. */
  lemma ScanStep(s: seq<u64>, i: nat, min: nat)
    requires 1 <= i < |s| && min < i
    requires FirstMinimum(s, i) == min
    ensures FirstMinimum(s, i + 1) == if PlaneBelow(s[i], s[min]) then i else min
  {
  }
}
