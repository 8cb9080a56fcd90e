/** Tile coordinates of a quantized point. Quantized values are in units of
    1/num_tilings of a tile width, so one tile spans n = num_tilings units.
    Tiling t displaces dimension i by t * (1 + 2i) units; the coordinate of
    the active tile is the largest integer not above the quantized value
    that is congruent to the displacement modulo n. The tiling number is
    appended to make the coordinate vectors of different tilings differ.
    `Tiles` is the specification of `TileCoder.TileCoords.Tile`. */
module Tiling {
  import opened Arith
  import opened Isize
  import opened UnhHash

  /** The `increment` that `tile` passes to the hash. */
  const Increment: int := 449

  /** 2^52: a bound on quantized values and on num_tilings * (2 * dims + 1)
      under which none of the `isize` operations of `tile` overflows. */
  const TileBound: int := 0x10_0000_0000_0000

  /** The displacement of dimension i at the start of tiling t: it starts at
      0 and grows by the odd number 1 + 2i per tiling. */
  function Displacement(t: nat, i: nat): nat {
    t * (1 + 2 * i)
  }

  /** The coordinate of the tile that covers quantized value q in a tiling
      whose grid lines sit at the integers congruent to b modulo n. */
  function TileCoordinate(q: int, b: int, n: int): (c: int)
    requires 0 < n
    ensures c % n == b % n
    ensures c <= q < c + n
  {
    var k := (q - b) / n;
    assert q - (q - b) % n == b + n * k;
    ModAddMultiple(b, n, k);
    q - (q - b) % n
  }

  /** The two properties of TileCoordinate determine it: it is the one
      integer congruent to b in (q - n, q]. */
  lemma TileCoordinateUnique(q: int, b: int, n: int, c: int)
    requires 0 < n && c % n == b % n && c <= q < c + n
    ensures c == TileCoordinate(q, b, n)
  {
    SameModIff(c, b, n);
    var j := (c - b) / n;
    assert c - b == n * j;
    assert q - b == n * j + (q - c);
    DivModUnique(q - b, n, j, q - c);
  }

  /** The two branches of the coordinate computation in `tile` (for
      q >= b and for q < b, each with Rust's truncating `%` on a
      non-negative operand) both give the closed form. */
  lemma BranchesAgree(q: int, b: int, n: int)
    requires 0 < n
    ensures q >= b ==> q - Rem(q - b, n) == TileCoordinate(q, b, n)
    ensures q < b ==> q + 1 + Rem(b - q - 1, n) - n == TileCoordinate(q, b, n)
  {
    if q >= b {
      var r := Rem(q - b, n);
      DivModUnique(r, n, 0, r);
    } else {
      var d := b - q - 1;
      var r := Rem(d, n);
      DivModUnique(r, n, 0, r);
      var c := q + 1 + r - n;
      var j := d / n;
      assert c - b == n * (-j - 1) + 0;
      DivModUnique(c - b, n, -j - 1, 0);
      SameModIff(c, b, n);
      TileCoordinateUnique(q, b, n, c);
    }
  }

  /** Two quantized values get the same tile exactly when they lie in the
      same width-n cell of the displaced grid. */
  lemma SameTileIff(q1: int, q2: int, b: int, n: int)
    requires 0 < n
    ensures TileCoordinate(q1, b, n) == TileCoordinate(q2, b, n) <==> (q1 - b) / n == (q2 - b) / n
  {
    var k1, k2 := (q1 - b) / n, (q2 - b) / n;
    assert TileCoordinate(q1, b, n) == b + n * k1;
    assert TileCoordinate(q2, b, n) == b + n * k2;
    MulMonotone(n, k1 + 1, k2);
    MulMonotone(n, k2 + 1, k1);
  }

  /** The coordinate vector that tiling t hashes: one tile coordinate per
      dimension, then the tiling number. */
  function TilingCoords(q: seq<int>, n: nat, t: nat): (v: seq<int>)
    requires 0 < n
    ensures |v| == |q| + 1 && v[|q|] == t
    ensures forall i :: 0 <= i < |q| ==>
      v[i] % n == Displacement(t, i) % n && v[i] <= q[i] < v[i] + n
  {
    seq(|q|, i requires 0 <= i < |q| => TileCoordinate(q[i], Displacement(t, i), n)) + [t]
  }

  /** What `tile` needs of its input: a positive `size` that survives the
      cast to `isize`, and values small enough that no `isize` operation
      overflows. */
  predicate TileArgsOk(q: seq<int>, n: nat, size: nat) {
    (0 < n ==> 0 < size <= Max) &&
    n * (2 * |q| + 1) <= TileBound &&
    forall i :: 0 <= i < |q| ==> -TileBound <= q[i] <= TileBound
  }

  /** Under TileArgsOk, num_tilings and the dimension count are each within
      TileBound, and so is every displacement up to tiling n. */
  lemma TileArgsBounds(q: seq<int>, n: nat, size: nat)
    requires TileArgsOk(q, n, size) && 0 < n
    ensures n <= TileBound && |q| <= TileBound
    ensures forall t, i :: 0 <= t <= n && 0 <= i < |q| ==> Displacement(t, i) <= TileBound
  {
    MulMonotone(n, 1, 2 * |q| + 1);
    MulMonotone(2 * |q| + 1, 1, n);
    forall t, i | 0 <= t <= n && 0 <= i < |q|
      ensures Displacement(t, i) <= TileBound
    {
      MulMonotone(1 + 2 * i, t, n);
      MulMonotone(n, 1 + 2 * i, 2 * |q| + 1);
    }
  }

  /** Under TileArgsOk every coordinate vector is a valid hash input. */
  lemma TilingCoordsHashable(q: seq<int>, n: nat, size: nat, t: nat)
    requires TileArgsOk(q, n, size) && 0 < n && t < n
    ensures HashArgsOk(TilingCoords(q, n, t), Increment)
  {
    TileArgsBounds(q, n, size);
    var v := TilingCoords(q, n, t);
    forall i | 0 <= i < |v|
      ensures InRange(v[i]) && InRange(Increment * i) && InRange(v[i] + Increment * i)
    {
    }
  }

  /** The index of tiling t. */
  function TileIndex(table: seq<int>, size: nat, n: nat, q: seq<int>, t: nat): (r: int)
    requires ValidTable(table) && TileArgsOk(q, n, size) && t < n
    ensures 0 <= r < size
  {
    TilingCoordsHashable(q, n, size, t);
    UnhIndex(table, TilingCoords(q, n, t), size, Increment)
  }

  /** The indices `tile` returns for quantized point q: one per tiling, each
      in [0, size). */
  function Tiles(table: seq<int>, size: nat, n: nat, q: seq<int>): (tiles: seq<int>)
    requires ValidTable(table) && TileArgsOk(q, n, size)
    ensures |tiles| == n
    ensures forall t :: 0 <= t < n ==> 0 <= tiles[t] < size
  {
    seq(n, t requires 0 <= t < n => TileIndex(table, size, n, q, t))
  }

  /** Locality: points that share a cell in every dimension of every tiling
      get the same indices (whatever the table). */
  lemma SameCellsSameTiles(table: seq<int>, size: nat, n: nat, q1: seq<int>, q2: seq<int>)
    requires ValidTable(table) && TileArgsOk(q1, n, size) && TileArgsOk(q2, n, size)
    requires |q1| == |q2|
    requires forall t, i :: 0 <= t < n && 0 <= i < |q1| ==>
      (q1[i] - Displacement(t, i)) / n == (q2[i] - Displacement(t, i)) / n
    ensures Tiles(table, size, n, q1) == Tiles(table, size, n, q2)
  {
    forall t | 0 <= t < n
      ensures TilingCoords(q1, n, t) == TilingCoords(q2, n, t)
    {
      forall i | 0 <= i < |q1|
        ensures TilingCoords(q1, n, t)[i] == TilingCoords(q2, n, t)[i]
      {
        SameTileIff(q1[i], q2[i], Displacement(t, i), n);
      }
    }
  }

  /** Points a full tile width apart in some dimension get different
      coordinate vectors in every tiling (their hashed indices may still
      collide). */
  lemma FarPointsDifferentCoords(q1: seq<int>, q2: seq<int>, n: nat, t: nat, i: nat)
    requires 0 < n && |q1| == |q2| && i < |q1| && q1[i] + n <= q2[i]
    ensures TilingCoords(q1, n, t) != TilingCoords(q2, n, t)
  {
    assert TilingCoords(q1, n, t)[i] <= q1[i];
    assert q2[i] < TilingCoords(q2, n, t)[i] + n;
  }

  /** Points whose first quantized values differ get different coordinate
      vectors in at least one tiling: in tiling q2[0] mod n the grid line of
      dimension 0 passes through q2[0] itself, and q1[0] lies below it. */
  lemma {:induction false} DifferentCellsSomeTiling(q1: seq<int>, q2: seq<int>, n: nat)
    requires 0 < n && |q1| == |q2| && 0 < |q1| && q1[0] < q2[0]
    ensures q2[0] % n < n
    ensures TilingCoords(q1, n, q2[0] % n) != TilingCoords(q2, n, q2[0] % n)
  {
    var t := q2[0] % n;
    assert Displacement(t, 0) == t;
    ModAddMultiple(t, n, 0);
    DivModUnique(t, n, 0, t);
    TileCoordinateUnique(q2[0], t, n, q2[0]);
    assert TilingCoords(q2, n, t)[0] == q2[0];
    assert TilingCoords(q1, n, t)[0] <= q1[0];
  }

  /** The unequal pairs of `different_tiles_for_different_coords`, after
      quantization with 8 tilings: 0.0, 0.5 and 1.0 become 0, 4 and 8. The
      pairs half a tile width apart get different coordinate vectors in the
      named tiling; 0 and 8, a full width apart, differ in every tiling
      (FarPointsDifferentCoords). Whether the hashed indices differ depends
      on the table. */
  lemma DifferentTilesTestCoords()
    ensures TilingCoords([0], 8, 4) != TilingCoords([4], 8, 4)
    ensures TilingCoords([4], 8, 0) != TilingCoords([8], 8, 0)
  {
    PairDifferentCoords(0, 4, 8);
    PairDifferentCoords(4, 8, 8);
  }

  /** The unequal pair of `appropriate_distance`, after quantization with 4
      tilings: 0.0 and 0.25 become 0 and 1, which get different coordinate
      vectors in tiling 1. */
  lemma AppropriateDistanceTestCoords()
    ensures TilingCoords([0], 4, 1) != TilingCoords([1], 4, 1)
  {
    PairDifferentCoords(0, 1, 4);
  }

  /** DifferentCellsSomeTiling for one-dimensional points, with the tiling
      named by the caller. */
  lemma PairDifferentCoords(x1: int, x2: int, n: nat)
    requires 0 < n && x1 < x2
    ensures TilingCoords([x1], n, x2 % n) != TilingCoords([x2], n, x2 % n)
  {
    DifferentCellsSomeTiling([x1], [x2], n);
  }

  /** The point -10.0 with 8 tilings quantizes to -80 (the quantization
      itself is not part of this model): it still gets exactly 8 indices,
      each in [0, 32). */
  lemma NegativePointExample(table: seq<int>)
    requires ValidTable(table)
    ensures |Tiles(table, 32, 8, [-80])| == 8
    ensures forall t :: 0 <= t < 8 ==> 0 <= Tiles(table, 32, 8, [-80])[t] < 32
  {
    assert TileArgsOk([-80], 8, 32);
  }
}
