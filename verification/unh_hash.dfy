/** The "UNH" hash of a tile-coordinate vector: every coordinate, offset by
    `increment` times its position, selects one of 2048 table entries; the
    entries are summed with 64-bit wrap-around and the sum is reduced into
    [0, m). This module holds the specification; the loop that computes it
    is `TileCoder.TileCoords.HashUnh`. */
module UnhHash {
  import opened Arith
  import opened Isize

  /** Number of entries in the table of random integers. */
  const TableSize: nat := 2048

  /** A table as `TileCoords::new` builds it: 2048 `isize` values. */
  predicate ValidTable(table: seq<int>) {
    |table| == TableSize && forall k :: 0 <= k < |table| ==> InRange(table[k])
  }

  /** The hash's inputs are `isize` values and the offset coordinate
      `coordinates[i] + increment * i` does not overflow. */
  predicate HashArgsOk(coords: seq<int>, increment: int) {
    InRange(increment) &&
    forall i :: 0 <= i < |coords| ==>
      InRange(coords[i]) && InRange(increment * i) && InRange(coords[i] + increment * i)
  }

  /** The table slot that coordinate i selects. */
  function Slot(coords: seq<int>, increment: int, i: nat): (s: nat)
    requires HashArgsOk(coords, increment) && i < |coords|
    ensures s < TableSize
    ensures s == (coords[i] + increment * i) % TableSize
  {
    And2047(coords[i] + increment * i)
  }

  /** The running `wrapping_add` sum over the first k coordinates. */
  function WrappedSum(table: seq<int>, coords: seq<int>, increment: int, k: nat): (s: int)
    requires ValidTable(table) && HashArgsOk(coords, increment) && k <= |coords|
    ensures InRange(s)
  {
    if k == 0 then 0
    else WrappingAdd(WrappedSum(table, coords, increment, k - 1), table[Slot(coords, increment, k - 1)])
  }

  /** The hash: the wrapped sum reduced into [0, m). */
  function UnhIndex(table: seq<int>, coords: seq<int>, m: int, increment: int): (r: int)
    requires ValidTable(table) && HashArgsOk(coords, increment) && 0 < m
    ensures 0 <= r < m
  {
    WrappedSum(table, coords, increment, |coords|) % m
  }

  /** Reference definition: the plain (unbounded) sum of the selected table
      entries, slot i being (coords[i] + increment * i) mod 2048. */
  function PlainSum(table: seq<int>, coords: seq<int>, increment: int, k: nat): int
    requires |table| == TableSize && k <= |coords|
  {
    if k == 0 then 0
    else PlainSum(table, coords, increment, k - 1) + table[(coords[k - 1] + increment * (k - 1)) % TableSize]
  }

  /** The step-by-step wrapping sum equals the plain sum wrapped once. */
  lemma {:induction false} WrappedSumIsWrappedPlainSum(table: seq<int>, coords: seq<int>, increment: int, k: nat)
    requires ValidTable(table) && HashArgsOk(coords, increment) && k <= |coords|
    ensures WrappedSum(table, coords, increment, k) == Wrap(PlainSum(table, coords, increment, k))
  {
    if k > 0 {
      WrappedSumIsWrappedPlainSum(table, coords, increment, k - 1);
      var prev := PlainSum(table, coords, increment, k - 1);
      var entry := table[Slot(coords, increment, k - 1)];
      WrapAddLeft(prev, entry);
    }
  }

  /** Closed form of the hash: the 64-bit wrapped sum of the selected table
      entries, taken modulo m. */
  lemma UnhIndexClosedForm(table: seq<int>, coords: seq<int>, m: int, increment: int)
    requires ValidTable(table) && HashArgsOk(coords, increment) && 0 < m
    ensures UnhIndex(table, coords, m, increment) == Wrap(PlainSum(table, coords, increment, |coords|)) % m
  {
    WrappedSumIsWrappedPlainSum(table, coords, increment, |coords|);
  }

  /** Rust's `%` followed by one addition of m when the remainder is
      negative is the Euclidean remainder, which lies in [0, m). */
  lemma LiftedRemIsMod(a: int, m: int)
    requires 0 < m
    ensures (if Rem(a, m) < 0 then Rem(a, m) + m else Rem(a, m)) == a % m
  {
    var r := Rem(a, m);
    if r < 0 {
      ModAddMultiple(r, m, 1);
      DivModUnique(r + m, m, 0, r + m);
    } else {
      DivModUnique(r, m, 0, r);
    }
  }
}
