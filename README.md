# Zone 7×7 bitboard

A Dafny model of `Zone7x7Bitboard`, the position representation of a 7×7 Go
region ("zone") solver. A position is three 64-bit planes:

- `zone`: the cells that take part;
- `black` and `white`: the stones.

Cell (x, y) is bit `y * 7 + x`. Only bits 0..48 name cells.

The model covers:

- reading and writing a cell (`get`, `set`);
- the plane-wise `&`, `|`, `^`, `~` and the comparisons;
- the three fixed 49-cell permutations (`transpose`, `flip`, `mirror`);
- the eight symmetries of the square (`isomorphize`);
- the flip/transpose walk that `store_isomorphisms` writes;
- the crop offset (`calculate_offset`, `tzcnt49`);
- the canonicaliser `minimize`.

The model is arranged as follows:

- `cells.dfy` (module `Cells`): planes as `bv64`, points, and the bit and cell
  readings of a plane. A plane without bits above the board is determined by
  its 49 cells.
- `transforms.dfy` (module `Transforms`): the static `transpose`, `flip` and
  `mirror`, written with the same masks, shifts and multiplications. `mirror`
  keeps its column loop (`MirrorLoop`).
- `symmetry.dfy` (module `Symmetry`):
  - the static `isomorphize`, with its `switch` fall-through written out case
    by case;
  - the cell map `Image` of each symmetry index, its inverse and its
    composition;
  - the walk `Walk`;
  - `store_isomorphisms` as a method filling an array.
- `crop.dfy` (module `Crop`): `tzcnt49` as a trailing-zero count with a stop
  bit at 49, `calculate_offset`, and what the shift does to the cells.
- `position.dfy` (module `Positions`):
  - the value of a board, a `datatype` with the three planes;
  - `get`, `set`, the operators and the comparisons, as functions on it.
- `canonical.dfy` (module `Canonical`): what `minimize` computes, as a function
  of the old position (`Minimized`), and its properties.
- `idempotence.dfy` (module `Idempotence`): `minimize` applied twice. Cells are
  read there with whole-number coordinates, and a plane's extent (the rows and
  columns its cells span) fixes its crop.
- `bitboard.dfy` (module `Board`): the class `Bitboard`. It has the three
  mutable fields and the members that overwrite them: `set`, `&=`, `|=`, `^=`,
  the member `transpose`, `flip`, `mirror` and `isomorphize`, and `minimize`
  with its scan loop over the eight candidates.

Some behaviours are modelled as written:

- `calculate_offset` keeps one empty row and one empty column. It moves a plane
  down by one row less than its empty bottom rows, and only when row 6 is
  empty. It does the same for columns, read off the transpose.
- An empty zone is shifted by 48.
- `minimize` compares only the cropped zone planes, as unsigned numbers. The
  first index wins a tie. The stones follow the chosen index and offset, and
  nothing breaks a tie between images that differ only in their stones
  (`Canonical.StonesNotCanonical`).
- `minimize` builds the zone candidates with the flip/transpose walk of
  `store_isomorphisms`. It moves the stones with `isomorphize`. The two agree on
  planes without bits above the board (`Symmetry.WalkIsomorphize`). They
  differ on other planes: `mirror` clears the high bits and the walk does not
  (`Canonical.WalkKeepsHighBits`).
- `minimize` is idempotent when the zone is not empty
  (`Idempotence.MinimizedIdempotent`). On the empty zone it is not: each call
  shifts the stones down by 48 again (`Idempotence.EmptyZoneNotIdempotent`).
- `minimize` does not forget where a shape lies. A single cell at (0, 0) stays
  there, while a single cell at the centre moves to (1, 1) and no further,
  because of the kept empty row and column
  (`Idempotence.MinimizedNotTranslationInvariant`).
- `~` does not mask back to 49 bits (`Positions.ComplementHighBits`).
- `operator<` is the OR of the three plane comparisons. It is not an order:
  two positions can each be below the other (`Positions.LessNotAsymmetric`).

## Model

| member | source | states |
|---|---|---|
| Board.Bitboard.constructor | Zone7x7Bitboard.h:14 | the new board holds the three given planes; a plane left out is 0 |
| Board.Bitboard.AndAssign | Zone7x7Bitboard.h:18 | `&=` replaces the board by the plane-wise AND with the other board's old value, aliasing included |
| Board.Bitboard.OrAssign | Zone7x7Bitboard.h:19 | `\|=` replaces the board by the plane-wise OR with the other board's old value |
| Board.Bitboard.XorAssign | Zone7x7Bitboard.h:20 | `^=` replaces the board by the plane-wise XOR with the other board's old value |
| Positions.AndCell | Zone7x7Bitboard.h:21 | every cell of every plane of `a & b` is set exactly when it is set in both |
| Positions.OrCell | Zone7x7Bitboard.h:22 | every cell of every plane of `a \| b` is set exactly when it is set in either |
| Positions.XorCell | Zone7x7Bitboard.h:23 | every cell of every plane of `a ^ b` is set exactly when it is set in one of them |
| Positions.ComplementCell | Zone7x7Bitboard.h:24 | `~` turns every cell of every plane over |
| Positions.ComplementInvolution | Zone7x7Bitboard.h:24 | `~~a == a` |
| Positions.ComplementHighBits | Zone7x7Bitboard.h:24 | `~` of a zone without high bits sets all 15 bits above the board |
| Positions.Position.And | Zone7x7Bitboard.h:21 | `&` as the plane-wise AND; what it does to each cell is `Positions.AndCell` |
| Positions.Position.Or | Zone7x7Bitboard.h:22 | `\|` as the plane-wise OR; what it does to each cell is `Positions.OrCell` |
| Positions.Position.Xor | Zone7x7Bitboard.h:23 | `^` as the plane-wise XOR; what it does to each cell is `Positions.XorCell` |
| Positions.Position.Complement | Zone7x7Bitboard.h:24 | `~` on all 64 bits of each plane, with no mask back to the board |
| Positions.Position.Equal | Zone7x7Bitboard.h:26 | `==` compares all three planes; `Positions.EqualIsEquality` states it is equality |
| Positions.Position.Less | Zone7x7Bitboard.h:27 | `<` holds when any one plane is below, as unsigned numbers |
| Positions.Position.NotEqual | Zone7x7Bitboard.h:28 | `!=` is the negation of `==` |
| Positions.Position.Greater | Zone7x7Bitboard.h:29 | `a > b` is `b < a` |
| Positions.Position.LessEq | Zone7x7Bitboard.h:30 | `a <= b` is `!(b < a)` |
| Positions.Position.GreaterEq | Zone7x7Bitboard.h:31 | `a >= b` is `!(a < b)` |
| Positions.EqualIsEquality | Zone7x7Bitboard.h:26-28 | `==` holds exactly for equal positions, and `!=` exactly for different ones |
| Positions.LessIrreflexive | Zone7x7Bitboard.h:27-31 | no position is `<` itself, and each is `<=` and `>=` itself |
| Positions.LessOnZones | Zone7x7Bitboard.h:27-30 | on positions with the same stones, `<` and `<=` are the unsigned order of the zones |
| Positions.LessNotAsymmetric | Zone7x7Bitboard.h:27-30 | two different positions each `<` the other and neither `<=` the other |
| Positions.BelowTransitive | Zone7x7Bitboard.h:107 | the unsigned plane comparison is transitive, also through a non-strict step |
| Positions.BelowTotal | Zone7x7Bitboard.h:107 | two planes neither of which is below the other are equal |
| Positions.Position.Get | Zone7x7Bitboard.h:41-47 | `get` reads the cell's bit in the three planes; its value is `Positions.GetCell` |
| Positions.Position.Set | Zone7x7Bitboard.h:48-73 | `set` as a new position, the `switch` on the type with its `default` case; its effect is `Positions.SetPlanes` |
| Positions.GetCell | Zone7x7Bitboard.h:41-47 | `get` is `IRRELEVANT` exactly when the zone cell is clear, and otherwise the black bit plus twice the white bit |
| Positions.SetPlanes | Zone7x7Bitboard.h:48-73 | `set` sets the zone bit for the three piece types and clears it for every other type, and sets the stone bit of the type's colour and clears the other |
| Positions.SetCell | Zone7x7Bitboard.h:48-73 | after `set`, the cell's zone bit says whether the type is a piece, its black bit whether it is black, and its white bit whether it is white |
| Positions.GetSet | Zone7x7Bitboard.h:41-73 | `get` after `set` returns the type written when it is empty, black or white, and `IRRELEVANT` for every other type |
| Positions.SetFrame | Zone7x7Bitboard.h:48-73 | `set` changes no bit of any plane outside the cell's mask, high bits included |
| Positions.SetOtherCells | Zone7x7Bitboard.h:48-73 | `set` leaves every other cell of every plane as it was |
| Board.Bitboard.Set | Zone7x7Bitboard.h:48-73 | the board becomes the old position with the cell written, and reading the cell back gives the type written or `IRRELEVANT` |
| Board.Bitboard.Transpose | Zone7x7Bitboard.h:76-80 | each plane is replaced by its transpose |
| Board.Bitboard.Flip | Zone7x7Bitboard.h:81-85 | each plane is replaced by its flip |
| Board.Bitboard.Mirror | Zone7x7Bitboard.h:86-90 | each plane is replaced by its mirror image |
| Board.Bitboard.Isomorphize | Zone7x7Bitboard.h:91-95 | the board becomes the old position with each plane moved by symmetry `i` |
| Transforms.Transpose | Zone7x7Bitboard.h:118-143 | `transpose` with the header's masks and shifts; its cell map is `Transforms.TransposeCell` |
| Transforms.TransposeBit | Zone7x7Bitboard.h:118-143 | `transpose` moves bit `r * 7 + c` to bit `c * 7 + r` for all `c, r < 7` |
| Transforms.TransposeCell | Zone7x7Bitboard.h:118-143 | the cell at (c, r) of a plane is the cell at (r, c) of its transpose |
| Transforms.TransposeHighBits | Zone7x7Bitboard.h:118-143 | `transpose` leaves the 15 bits above the board unchanged |
| Transforms.TransposeInvolution | Zone7x7Bitboard.h:118-143 | `transpose` is its own inverse on every 64-bit plane |
| Transforms.Flip | Zone7x7Bitboard.h:144-191 | `flip` with the header's multiplications and shifts; its cell map is `Transforms.FlipCell` |
| Transforms.FlipReversesRows | Zone7x7Bitboard.h:144-191 | the multiply-and-shift `flip` equals the plain reversal of the seven rows |
| Transforms.FlipBit | Zone7x7Bitboard.h:144-191 | `flip` moves bit `r * 7 + c` to bit `(6 - r) * 7 + c` |
| Transforms.FlipCell | Zone7x7Bitboard.h:144-191 | the cell at (c, r) of a plane is the cell at (c, 6 - r) of its flip |
| Transforms.FlipHighBits | Zone7x7Bitboard.h:144-191 | `flip` leaves the 15 bits above the board unchanged |
| Transforms.FlipInvolution | Zone7x7Bitboard.h:144-191 | `flip` is its own inverse on every 64-bit plane |
| Transforms.Mirror | Zone7x7Bitboard.h:192-199 | `mirror` as the three rounds of its column loop; its cell map is `Transforms.MirrorCell` |
| Transforms.MirrorLoop | Zone7x7Bitboard.h:192-199 | the column loop returns the mirror image of the plane, with no bit above the board |
| Transforms.MirrorAllColumns | Zone7x7Bitboard.h:192-199 | the three rounds of the loop together build the mirror image, which has no bit above the board |
| Transforms.MirrorBit | Zone7x7Bitboard.h:192-199 | `mirror` moves bit `r * 7 + c` to bit `r * 7 + (6 - c)` |
| Transforms.MirrorCell | Zone7x7Bitboard.h:192-199 | the cell at (c, r) of a plane is the cell at (6 - c, r) of its mirror image |
| Transforms.MirrorInvolution | Zone7x7Bitboard.h:192-199 | mirroring twice gives back the plane with its high bits cleared |
| Symmetry.Isomorphize | Zone7x7Bitboard.h:200-218 | the `switch` on `i % 8` with its fall-through written out case by case; its cell map is `Symmetry.IsomorphizeCell` |
| Symmetry.IsomorphizeCell | Zone7x7Bitboard.h:200-218 | symmetry `i` moves the cell at `p` to `Image(i % 8, p)`; the eight maps are identity, (c, 6-r), (6-r, c), (6-r, 6-c), (6-c, 6-r), (6-c, r), (r, 6-c) and (r, c) |
| Symmetry.IsomorphizeOnBoard | Zone7x7Bitboard.h:200-218 | every symmetry keeps a plane without high bits without high bits |
| Symmetry.ImageInverse | Zone7x7Bitboard.h:200-218 | each of the eight cell maps has an inverse among them |
| Symmetry.ImageCompose | Zone7x7Bitboard.h:200-218 | two of the cell maps in a row are again one of them |
| Symmetry.IsomorphizeCompose | Zone7x7Bitboard.h:200-218 | on planes without high bits, applying symmetry `j` and then `i` is applying symmetry `Compose(i, j)` |
| Symmetry.IsomorphizeInverse | Zone7x7Bitboard.h:200-218 | on planes without high bits, symmetry `Inverse(i % 8)` undoes symmetry `i` |
| Symmetry.Walk | Zone7x7Bitboard.h:232-241 | entry `i` of `store_isomorphisms`: `flip` at odd steps and `transpose` at even ones; its cell map is `Symmetry.WalkCell` |
| Symmetry.WalkCell | Zone7x7Bitboard.h:232-241 | the `i`-th plane of the flip/transpose walk moves each cell by the cell map of index `i` |
| Symmetry.WalkHighBits | Zone7x7Bitboard.h:232-241 | the walk keeps the bits above the board |
| Symmetry.WalkIsomorphize | Zone7x7Bitboard.h:200-241 | on planes without high bits, the `i`-th plane of the walk is `isomorphize(x, i)` |
| Symmetry.StoreIsomorphisms | Zone7x7Bitboard.h:232-241 | the first eight array entries become the eight planes of the walk, and the rest of the array is unchanged |
| Crop.Tzcnt49 | Zone7x7Bitboard.h:249-251 | the trailing-zero count with bit 49 set is at most 49 |
| Crop.CalculateOffset | Zone7x7Bitboard.h:242-248 | the offset is at most 48, so the shift is defined |
| Crop.Tzcnt49Found | Zone7x7Bitboard.h:249-251 | a count below 49 is the index of a set bit |
| Crop.Tzcnt49ClearBelow | Zone7x7Bitboard.h:249-251 | every bit below the count is clear |
| Crop.Tzcnt49Empty | Zone7x7Bitboard.h:249-251 | the count is 49 exactly when the plane has no cell |
| Crop.CalculateOffsetEmpty | Zone7x7Bitboard.h:242-248 | the offset of the empty plane is 48 |
| Crop.HighBitsNotShifted | Zone7x7Bitboard.h:242-248 | a plane with bits above the board gets offset 0 |
| Crop.CropMovesCells | Zone7x7Bitboard.h:242-248 | after the shift, the cell at (c, r) holds the old cell at (c + column shift, r + row shift), and it is clear when that lies off the board |
| Crop.CropKeepsCell | Zone7x7Bitboard.h:242-248 | no set cell is lost or wrapped: each lands the column shift to the left and the row shift down, still on the board |
| Crop.RowShiftZero | Zone7x7Bitboard.h:244 | a plane with a cell in row 0, 1 or 6 is not moved down |
| Crop.ColumnShiftZero | Zone7x7Bitboard.h:245-246 | a plane with a cell in column 0, 1 or 6 is not moved left |
| Crop.CropIdempotent | Zone7x7Bitboard.h:242-248 | the offset of a plane other than 0, once shifted by its own offset, is 0 |
| Canonical.Isomorphized | Zone7x7Bitboard.h:91-95 | the member `isomorphize` as a new position, each plane moved by symmetry `i`; `Canonical.GetIsomorphized` states it cell by cell |
| Canonical.Minimized | Zone7x7Bitboard.h:98-115 | the position `minimize` leaves, as a function of the old one; `Canonical.MinimizedZone` states the choice |
| Canonical.FirstMinimum | Zone7x7Bitboard.h:104-112 | the scan's choice among the first `n` values: none is below it, and every earlier value is above it |
| Canonical.FirstMinimumUnique | Zone7x7Bitboard.h:104-112 | an index with those two properties is the scan's choice |
| Canonical.SameValuesSameMinimum | Zone7x7Bitboard.h:104-112 | two lists holding the same values have the same minimum value |
| Canonical.MinimizedZone | Zone7x7Bitboard.h:98-112 | the minimized zone is the cropped image of the chosen index; no cropped image is below it, and every image with a lower index is above it |
| Canonical.MinimumIndexUnique | Zone7x7Bitboard.h:104-112 | an index whose cropped image is a minimum, and strictly below every earlier one, is the chosen index |
| Canonical.GetIsomorphized | Zone7x7Bitboard.h:91-95 | `get` of the moved position at `Image(i % 8, p)` is `get` of the old position at `p` |
| Canonical.IsomorphizedInverse | Zone7x7Bitboard.h:91-95 | on planes without high bits, symmetry `Inverse(i % 8)` gives back the position |
| Canonical.CandidatesAppear | Zone7x7Bitboard.h:232-241 | every cropped walk image of a symmetric image of a plane is a cropped walk image of the plane |
| Canonical.MinimizedInvariant | Zone7x7Bitboard.h:98-115 | for a zone without high bits, all eight symmetric images of a position minimize to the same zone |
| Canonical.MinimizedMovesAllPlanes | Zone7x7Bitboard.h:98-115 | for a zone without high bits, `minimize` moves all three planes by the chosen symmetry and shifts them by the zone's offset for it |
| Canonical.WalkKeepsHighBits | Zone7x7Bitboard.h:200-241 | for a plane with a bit above the board, the walk and `isomorphize` differ: step 4 keeps the bit, symmetry 4 clears it |
| Canonical.AllCandidatesEqual | Zone7x7Bitboard.h:98-115 | a zone that `flip` and `transpose` both fix has all eight candidates equal, so index 0 is chosen |
| Canonical.FullZoneFixed | Zone7x7Bitboard.h:98-115 | with the full zone, `minimize` leaves the position unchanged, whatever the stones |
| Canonical.EmptyZoneShifted | Zone7x7Bitboard.h:98-115 | with the empty zone, `minimize` shifts the stones down by 48 |
| Canonical.StonesNotCanonical | Zone7x7Bitboard.h:107-114 | two symmetric positions get the same minimized zone and different minimized stones |
| Canonical.MinimizedCropped | Zone7x7Bitboard.h:98-115 | a non-empty minimized zone is not shifted again by `calculate_offset` |
| Idempotence.CropMoves | Zone7x7Bitboard.h:242-248 | the crop moves every cell, on or off the board, left by the column shift and down by the row shift |
| Idempotence.RowShiftOf | Zone7x7Bitboard.h:244 | for cells spanning rows `lo` to `hi`, the row shift is 0 when `hi` is 6 or `lo` is 0, and `lo - 1` otherwise |
| Idempotence.ColumnShiftOf | Zone7x7Bitboard.h:245-246 | the same for the columns, read off the transpose |
| Idempotence.CroppedNonZero | Zone7x7Bitboard.h:242-248 | the crop never empties a plane |
| Idempotence.CropTranspose | Zone7x7Bitboard.h:242-248 | cropping commutes with `transpose` |
| Idempotence.CropFlipCrop | Zone7x7Bitboard.h:242-248 | after a `flip`, the crop is the same whether or not the plane was cropped before |
| Idempotence.WalkCompose | Zone7x7Bitboard.h:232-241 | `k` steps of the walk followed by `i` steps are the walk to symmetry `Compose(i, k)` |
| Idempotence.WalkCropped | Zone7x7Bitboard.h:232-248 | walking from the cropped plane and cropping gives what walking from the plane and cropping gives |
| Idempotence.CandidateOfMinimized | Zone7x7Bitboard.h:98-112 | each cropped image of a minimized zone is a cropped image of the original zone, for the composed symmetry |
| Idempotence.MinimizedIdempotent | Zone7x7Bitboard.h:98-115 | on a non-empty zone, `minimize` of a minimized position changes nothing |
| Idempotence.EmptyZoneNotIdempotent | Zone7x7Bitboard.h:98-115 | on the empty zone a second `minimize` moves the stones again: a stone at bit 48 goes to bit 0, then off the board |
| Idempotence.MinimizedNotTranslationInvariant | Zone7x7Bitboard.h:98-115 | a single cell at (0, 0) keeps zone 1, while the same cell at the centre minimizes to zone `0x100`, the cell at (1, 1) |
| Board.Bitboard.Minimize | Zone7x7Bitboard.h:98-115 | the board becomes `Minimized` of the old position: the least cropped zone image, first index on ties, with the stones moved by that symmetry and offset |

## Left out

- `operator<<` (console rendering) and the stdin/stdout test driver are I/O. They are not part of this model.
- The commented-out alternative symmetry numbering inside `isomorphize` is dead code.
- The copy constructor and copy assignment are the default member-wise copies. The datatype `Position` is that value.
- Positions.Position.Get and Positions.Position.Set carry the precondition `x < 7 && y < 7`; the header does not check its arguments. For other arguments the shift `y * 7 + x` is 7 or more. Below 49 it aliases another cell (`x = 7, y = 0` is the cell (0, 1)). From 49 to 63 it touches the bits above the board. Only from 64 on is the shift undefined behaviour in C++. The precondition also excludes the defined aliasing calls.
- `__builtin_ctzll` and `std::max` are modelled by their meaning: a trailing-zero count of the plane with bit 49 set, and the larger of two counts.
- Positions.PlaneBelow: the unsigned 64-bit comparison is stated as the comparison of the planes' numeric values. That is what unsigned `<` means. The bit-vector `<` was not used because its order facts were too costly to prove.
- Board.Bitboard.Minimize: the loop counter is an unbounded `nat` rather than a `u32`. It runs from 1 to 7, so it never wraps.
- Board.Bitboard.Minimize: `ziso` is a fresh array of eight entries, filled by `StoreIsomorphisms`. Its zero initialisation is not modelled, since every entry is overwritten.
- The plane operators (`&`, `|`, `^`, `~`, `>>`) that the positions use are wrapped in named functions (`PlaneAnd`, `ShiftDown`, ...). They are the same operations.
- Canonical.MinimizedInvariant and Canonical.MinimizedMovesAllPlanes require a zone without bits above the board. With such bits the walk and `isomorphize` disagree (see `Canonical.WalkKeepsHighBits`).
- Symmetry.IsomorphizeCompose and Symmetry.IsomorphizeInverse require a plane without high bits, because `mirror` clears those bits.
- That `transpose`, `flip` and `mirror` preserve the number of set cells is not stated as a count. It follows from the cell maps being bijections on the board, which the `...Cell` lemmas together with the involutions state.
