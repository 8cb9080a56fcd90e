# Tile coding with UNH hashing

This project models the core of `tilecoding-rs`: the `TileCoords` tile coder.
A point in continuous space, already quantized to integers, is covered by
`num_tilings` overlapping grids ("tilings"). Each tiling is displaced
diagonally from the previous one. For every tiling, the coder computes the
integer coordinate vector of the tile that holds the point. It then hashes
that vector into `[0, size)` with the "UNH" hash, which sums entries of a
2048-entry table of random `isize` values.

Modules:

- `Arith` (`arith.dfy`): facts about Euclidean division and `Pow2`.
- `Isize` (`isize.dfy`): Rust's 64-bit `isize`. It covers the range,
  `wrapping_add`, the truncating `%`, `& 2047` on the two's-complement
  pattern, and the debug-build overflow panic. That panic becomes the
  precondition of `CheckedAdd`, `CheckedSub` and `CheckedMul`.
- `UnhHash` (`unh_hash.dfy`): the specification of `hash_unh`. It also has a
  reference definition (the unbounded sum, wrapped once) and the lemmas that
  connect the two.
- `Tiling` (`tiling.dfy`): the closed form of the tile coordinates, the
  coordinate vector of each tiling, and `Tiles`, the specification of `tile`.
  It also holds the locality lemmas.
- `TileCoder` (`tile_coords.dfy`): the class `TileCoords`. Its constant
  fields are `size`, `numTilings` and the table `randSequence` (an
  `array<int>` of length 2048). The methods `HashUnh` and `Tile` carry the
  source's loops and are proved against the functions above. `Tile`'s inner
  loop is the method `FillCoordinates`, and the coordinate computation in
  it is the method `Coordinate`.

Where a general description of this tile-coding scheme and this code differ,
the model follows the code:

- The coordinate of dimension i is the grid line itself: the largest integer
  `<= q[i]` that is congruent to the displacement modulo `num_tilings`. It is
  not `floor((q[i] + b) / num_tilings)`.
- The tiling number is appended as the last coordinate, not prepended.
- There are no discrete tags, no wrap widths and no bounded index
  dictionary.

## Model

| member | source | states |
|---|---|---|
| `Isize.Wrap` | src/lib.rs:37 | 64-bit truncation: the result is an `isize`, differs from the input by a multiple of 2^64, and leaves values already in range unchanged |
| `Isize.WrappingAdd` | src/lib.rs:37 | `isize::wrapping_add`: the exact sum when it fits, otherwise the sum shifted by 2^64 back into the `isize` range |
| `Isize.WrapAddLeft` | src/lib.rs:37 | wrapping the partial sum before adding the next entry gives the same result as wrapping only at the end |
| `Isize.Rem` | src/lib.rs:40 | Rust's `%` for a positive divisor: the remainder lies in (-b, b), is congruent to the dividend and has the dividend's sign |
| `Isize.BitAndLowMask` | src/lib.rs:33 | `BitAnd` (the bitwise `&` of two non-negative integers, defined bit by bit) with the mask 2^k - 1 keeps the residue modulo 2^k |
| `Isize.And2047` | src/lib.rs:33-36 | `x & 2047` on an `isize` (`BitAnd` of the two's-complement pattern `x mod 2^64` with 2047) is the non-negative residue of x modulo 2048, so the table index is in [0, 2048) and the loop that adds 2048 while it is negative never runs |
| `UnhHash.Slot` | src/lib.rs:31-36 | coordinate i selects table slot (coordinates[i] + increment * i) mod 2048, which is in bounds |
| `UnhHash.WrappedSum` | src/lib.rs:28-38 | the running `wrapping_add` sum of the selected table entries is always an `isize` |
| `UnhHash.UnhIndex` | src/lib.rs:40-45 | the hash of a coordinate vector lies in [0, m) |
| `UnhHash.WrappedSumIsWrappedPlainSum` | src/lib.rs:28-38 | the step-by-step wrapping sum equals the unbounded sum of the selected entries, wrapped once to 64 bits |
| `UnhHash.UnhIndexClosedForm` | src/lib.rs:26-45 | the hash is (the sum over i of table[(coordinates[i] + increment * i) mod 2048], wrapped to 64 bits) taken Euclidean-mod m; it depends only on the coordinates, m, increment and the table |
| `UnhHash.LiftedRemIsMod` | src/lib.rs:40-43 | Rust's `%` followed by adding m while the result is negative gives the Euclidean remainder |
| `Tiling.TileCoordinate` | src/lib.rs:61-67 | the tile coordinate is congruent to the displacement modulo num_tilings, and q - num_tilings < coordinate <= q |
| `Tiling.TileCoordinateUnique` | src/lib.rs:61-67 | those two properties determine the coordinate: it is the largest integer <= q congruent to the displacement |
| `Tiling.BranchesAgree` | src/lib.rs:62-67 | the `q >= base` branch and the `q < base` branch, each with Rust's `%`, both compute the closed-form coordinate |
| `Tiling.SameTileIff` | src/lib.rs:61-67 | two quantized values get the same coordinate in a tiling if and only if they fall in the same displaced cell |
| `Tiling.TilingCoords` | src/lib.rs:59-73 | the hashed vector has dims + 1 elements; element i is the tile coordinate under `Displacement(t, i)` = t * (1 + 2i), the closed form of `base[i]` (src/lib.rs:49, 70), and the last element is the tiling number |
| `Tiling.TileArgsBounds` | src/lib.rs:63-70 | under the input bounds, every displacement `base[i]` reached stays within 2^52 |
| `Tiling.TilingCoordsHashable` | src/lib.rs:73-76 | under the input bounds, each coordinate vector is a valid, overflow-free input to the hash |
| `Tiling.TileIndex` | src/lib.rs:76 | the index of each tiling lies in [0, size) |
| `Tiling.Tiles` | src/lib.rs:48-80 | `tile` returns exactly num_tilings indices, each in [0, size), negative inputs included |
| `Tiling.SameCellsSameTiles` | src/lib.rs:97-110 | points that share a cell in every dimension of every tiling get identical indices, whatever the table; this covers `same_tiles_for_same_coords` and the `assert_eq!` half of `appropriate_distance` (src/lib.rs:138, where 0.0 and 0.125 both quantize to 0) |
| `Tiling.FarPointsDifferentCoords` | src/lib.rs:112-122 | points at least one tile width apart in some dimension get different coordinate vectors in every tiling; this covers the pair 0.0 / 1.0 of `different_tiles_for_different_coords` (src/lib.rs:121) |
| `Tiling.DifferentCellsSomeTiling` | src/lib.rs:112-122 | points whose first quantized values differ, by however little, get different coordinate vectors in tiling `q2[0] mod num_tilings`, where the grid line passes through the larger value |
| `Tiling.PairDifferentCoords` | src/lib.rs:112-122 | the one-dimensional case of `DifferentCellsSomeTiling`: quantized values x1 < x2 get different coordinate vectors in tiling `x2 mod num_tilings` |
| `Tiling.DifferentTilesTestCoords` | src/lib.rs:112-120 | the half-width pairs of `different_tiles_for_different_coords` (0 / 4 and 4 / 8 with 8 tilings) get different coordinate vectors in tilings 4 and 0 respectively |
| `Tiling.AppropriateDistanceTestCoords` | src/lib.rs:131-139 | the `assert_ne!` pair of `appropriate_distance` (0 / 1 with 4 tilings) gets different coordinate vectors in tiling 1 |
| `Tiling.NegativePointExample` | src/lib.rs:124-129 | the quantized point -80 (that is, -10.0 with 8 tilings) gets 8 indices in [0, 32) |
| `TileCoder.Coordinate` | src/lib.rs:61-67 | the two-branch coordinate computation, with Rust's `%` and overflow checks, returns exactly `TileCoordinate`: the grid line at or below q congruent to the displacement |
| `TileCoder.FillCoordinates` | src/lib.rs:59-73 | one pass of the inner loop writes `TilingCoords` of tiling t into the coordinate buffer (tiling number last) and moves every `base[i]` from `Displacement(t, i)` to `Displacement(t + 1, i)` |
| `TileCoder.TileCoords.constructor` | src/lib.rs:10-24 | `new` stores size, num_tilings and a fresh 2048-entry table holding the given values |
| `TileCoder.TileCoords.HashUnh` | src/lib.rs:26-46 | the loop computes `UnhIndex` of the table, so its result is in [0, m); overflow checks hold at every step |
| `TileCoder.TileCoords.Tile` | src/lib.rs:48-80 | the nested loops return `Tiles` of the table: num_tilings indices in [0, size). They keep `base[i] == Displacement(t, i)` = t * (1 + 2i) at the start of tiling t, never overflow, and only read the object, so equal quantized inputs give equal outputs |

## Left out

- Quantization `(x * num_tilings as f32).floor() as isize` (src/lib.rs:54) is
  `f32` floating point. `Tile` takes the already quantized integers.
- Random table generation in `new` (src/lib.rs:14-22) calls `rand::random`.
  The constructor takes the 2048 table values as a parameter instead.
- `TileCoder.TileCoords.Tile` (and `Tiling.Tiles`, `Tiling.TileIndex`,
  `Tiling.SameCellsSameTiles`, through the shared predicate `TileArgsOk`,
  and `TileCoder.FillCoordinates` and `TileCoder.Coordinate`, through the
  same bound stated directly): requires every quantized value to lie within
  ±2^52 and `num_tilings * (2 * dims + 1) <= 2^52`. Under these bounds no
  `isize` operation overflows. The exact overflow boundary, beyond which a
  debug build panics, is not characterised, so some inputs that the source
  accepts are excluded.
- `TileCoder.TileCoords.HashUnh`: requires `0 < m`. With `m == 0` the source
  panics on `% 0`. A negative `m` (a `size` above `isize::MAX` cast to
  `isize`) makes the loop at src/lib.rs:41-43 move a negative remainder
  further from zero until an overflow panic (debug build) or a wrap (release
  build). This misuse is excluded.
- Release builds wrap on overflow instead of panicking. Only the explicit
  `wrapping_add` is modelled as wrapping.
- The `assert_ne!` checks of `different_tiles_for_different_coords`
  (src/lib.rs:119-121) and `appropriate_distance` (src/lib.rs:139) compare
  hashed indices, which depend on the random table: two different
  coordinate vectors can collide in 32 slots. Only the coordinate-level
  statements are proved: `Tiling.FarPointsDifferentCoords` (0.0 / 1.0, in
  every tiling), `Tiling.DifferentTilesTestCoords` (0.0 / 0.5 and 0.5 / 1.0,
  each in one tiling) and `Tiling.AppropriateDistanceTestCoords` (0.0 /
  0.25, in one tiling).
- The dead loop in `hash_unh` that adds 2048 while the index is negative
  (src/lib.rs:34-36) is not written as a loop. An assertion states that its
  guard is false, which is what `Isize.And2047` proves.
- Benchmarks and the `test` feature gate (src/lib.rs:1, 142-164) are harness
  code.
