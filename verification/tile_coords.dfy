/** The tile coder object: its size, number of tilings and table of 2048
    random `isize` values, and the two loops that compute tile indices.
    Both methods only read the object, so equal inputs give equal outputs. */
module TileCoder {
  import opened Arith
  import opened Isize
  import opened UnhHash
  import opened Tiling

  /** The coordinate computation inside `tile`: the grid line at or below q
      for displacement b, by one of two branches with Rust's `%`, neither of
      which overflows for values within TileBound. */
  method Coordinate(q: int, b: int, n: int) returns (c: int)
    requires 0 < n <= TileBound
    requires -TileBound <= q <= TileBound && 0 <= b <= TileBound
    ensures c == TileCoordinate(q, b, n)
    ensures c % n == b % n && c <= q < c + n
  {
    BranchesAgree(q, b, n);
    if q >= b {
      c := CheckedSub(q, Rem(CheckedSub(q, b), n));
    } else {
      var r := Rem(CheckedSub(CheckedSub(b, q), 1), n);
      c := CheckedSub(CheckedAdd(CheckedAdd(q, 1), r), n);
    }
  }

  /** One pass of the inner loop of `tile` for tiling t: writes the tile
      coordinate of every dimension and then t into `coordinates`, and moves
      every displacement on to the one of tiling t + 1. */
  method FillCoordinates(qstate: seq<int>, n: int, t: nat, base: array<int>, coordinates: array<int>)
    requires 0 < n <= TileBound && t < n
    requires forall i :: 0 <= i < |qstate| ==> -TileBound <= qstate[i] <= TileBound
    requires forall i :: 0 <= i < |qstate| ==> Displacement(t, i) + (1 + 2 * i) <= TileBound
    requires base.Length == |qstate| && coordinates.Length == |qstate| + 1
    requires forall i :: 0 <= i < |qstate| ==> base[i] == Displacement(t, i)
    modifies base, coordinates
    ensures forall i :: 0 <= i < |qstate| ==> base[i] == Displacement(t + 1, i)
    ensures coordinates[..] == TilingCoords(qstate, n, t)
  {
    var dims := |qstate|;
    for i := 0 to dims
      invariant forall j :: 0 <= j < i ==>
        base[j] == Displacement(t + 1, j) &&
        coordinates[j] == TileCoordinate(qstate[j], Displacement(t, j), n)
      invariant forall j :: i <= j < dims ==> base[j] == Displacement(t, j)
    {
      coordinates[i] := Coordinate(qstate[i], base[i], n);
      assert Displacement(t + 1, i) == Displacement(t, i) + (1 + 2 * i);
      base[i] := CheckedAdd(base[i], 1 + 2 * i);
    }
    coordinates[dims] := t;
    assert coordinates[..] == TilingCoords(qstate, n, t);
  }

  class TileCoords {
    const size: nat
    const numTilings: nat
    const randSequence: array<int>

    ghost predicate Valid()
      reads randSequence
    {
      ValidTable(randSequence[..])
    }

    /** `TileCoords::new`, given the table its random-number generator
        would have produced. */
    constructor (size: nat, numTilings: nat, table: seq<int>)
      requires size <= MaxUsize && numTilings <= MaxUsize
      requires ValidTable(table)
      ensures Valid() && fresh(randSequence)
      ensures this.size == size && this.numTilings == numTilings
      ensures randSequence[..] == table
    {
      this.size := size;
      this.numTilings := numTilings;
      randSequence := new int[TableSize](k requires 0 <= k < TableSize => table[k]);
    }

    /** `hash_unh`: folds a coordinate vector into [0, m). */
    method HashUnh(coordinates: seq<int>, m: int, increment: int) returns (r: int)
      requires Valid()
      requires 0 < m <= Max
      requires HashArgsOk(coordinates, increment)
      ensures 0 <= r < m
      ensures r == UnhIndex(randSequence[..], coordinates, m, increment)
    {
      var table := randSequence[..];
      var index: int;
      var sum := 0;
      for i := 0 to |coordinates|
        invariant sum == WrappedSum(table, coordinates, increment, i)
      {
        index := coordinates[i];
        index := CheckedAdd(index, CheckedMul(increment, i));
        index := And2047(index);
        // The source follows the mask with a loop that adds 2048 while the
        // index is negative; the mask never yields a negative value, so that
        // loop never runs.
        assert !(index < 0);
        sum := WrappingAdd(sum, randSequence[index]);
      }
      index := Rem(sum, m);
      while index < 0
        invariant -m < index < m
        invariant index % m == sum % m
        decreases -index
      {
        ModAddMultiple(index, m, 1);
        index := CheckedAdd(index, m);
      }
      DivModUnique(index, m, 0, index);
      r := index;
    }

    /** `tile` on an already quantized point: for every tiling, the tile
        coordinate of each dimension under that tiling's displacement, the
        tiling number, and the hash of the resulting vector. */
    method Tile(qstate: seq<int>) returns (tiles: seq<int>)
      requires Valid()
      requires TileArgsOk(qstate, numTilings, size)
      ensures |tiles| == numTilings
      ensures forall t :: 0 <= t < numTilings ==> 0 <= tiles[t] < size
      ensures tiles == Tiles(randSequence[..], size, numTilings, qstate)
    {
      var n := numTilings;
      var dims := |qstate|;
      ghost var table := randSequence[..];
      var base := new int[dims](_ => 0);
      tiles := [];
      var coordinates := new int[dims + 1](_ => 0);
      if 0 < n {
        TileArgsBounds(qstate, n, size);
      }
      for tiling := 0 to n
        invariant |tiles| == tiling
        invariant forall k :: 0 <= k < tiling ==>
          tiles[k] == TileIndex(table, size, n, qstate, k)
        invariant forall j :: 0 <= j < dims ==> base[j] == Displacement(tiling, j)
      {
        forall i | 0 <= i < dims
          ensures Displacement(tiling, i) + (1 + 2 * i) <= TileBound
        {
          assert Displacement(tiling + 1, i) == Displacement(tiling, i) + (1 + 2 * i);
        }
        FillCoordinates(qstate, n, tiling, base, coordinates);
        TilingCoordsHashable(qstate, n, size, tiling);
        var index := HashUnh(coordinates[..], size, Increment);
        tiles := tiles + [index];
      }
    }
  }
}
