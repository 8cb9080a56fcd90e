/** The parts of Rust's 64-bit `isize` arithmetic that the tile coder uses:
    the value range, `wrapping_add`, the truncating `%`, `& 2047` on the
    two's-complement bit pattern, and the debug-build overflow panic (modelled
    as a precondition of the checked operations). */
module Isize {
  import opened Arith

  const Min: int := -0x8000_0000_0000_0000
  const Max: int := 0x7FFF_FFFF_FFFF_FFFF
  /** 2^64: the number of distinct 64-bit patterns. */
  const Modulus: int := 0x1_0000_0000_0000_0000
  const MaxUsize: int := 0xFFFF_FFFF_FFFF_FFFF

  predicate InRange(x: int) {
    Min <= x <= Max
  }

  // Arithmetic that panics on overflow in a debug build: the overflow is
  // excluded by the precondition.

  function CheckedAdd(a: int, b: int): int
    requires InRange(a + b)
  {
    a + b
  }

  function CheckedSub(a: int, b: int): int
    requires InRange(a - b)
  {
    a - b
  }

  function CheckedMul(a: int, b: int): int
    requires InRange(a * b)
  {
    a * b
  }

  /** Reduces an unbounded integer to the `isize` with the same low 64 bits. */
  function Wrap(x: int): (r: int)
    ensures InRange(r)
    ensures (x - r) % Modulus == 0
    ensures InRange(x) ==> r == x
  {
    var r := (x - Min) % Modulus + Min;
    assert x - r == Modulus * ((x - Min) / Modulus);
    ModAddMultiple(0, Modulus, (x - Min) / Modulus);
    assert InRange(x) ==> r == x by {
      if InRange(x) {
        DivModUnique(x - Min, Modulus, 0, x - Min);
      }
    }
    r
  }

  /** Wrapping twice is wrapping once: only the low 64 bits of the first
      summand matter. */
  lemma WrapAddLeft(a: int, b: int)
    ensures Wrap(Wrap(a) + b) == Wrap(a + b)
  {
    var w := Wrap(a);
    var k := (a - w) / Modulus;
    assert a - w == Modulus * k;
    ModAddMultiple(w + b - Min, Modulus, k);
  }

  /** `isize::wrapping_add`: the exact sum when it fits, otherwise the sum
      shifted by 2^64 back into range. */
  function WrappingAdd(a: int, b: int): (r: int)
    requires InRange(a) && InRange(b)
    ensures InRange(r)
    ensures InRange(a + b) ==> r == a + b
    ensures a + b > Max ==> r == a + b - Modulus
    ensures a + b < Min ==> r == a + b + Modulus
  {
    var r := Wrap(a + b);
    assert a + b > Max ==> r == a + b - Modulus by {
      if a + b > Max {
        DivModUnique(a + b - Min, Modulus, 1, a + b - Min - Modulus);
      }
    }
    assert a + b < Min ==> r == a + b + Modulus by {
      if a + b < Min {
        DivModUnique(a + b - Min, Modulus, -1, a + b - Min + Modulus);
      }
    }
    r
  }

  /** Rust's `%` for a positive divisor: it truncates toward zero, so the
      remainder takes the sign of the dividend (Dafny's `%` never goes
      negative). The four ensures clauses pin the result down uniquely. */
  function Rem(a: int, b: int): (r: int)
    requires 0 < b
    ensures -b < r < b
    ensures r % b == a % b
    ensures a >= 0 ==> r >= 0
    ensures a <= 0 ==> r <= 0
  {
    if a >= 0 then
      DivModUnique(a % b, b, 0, a % b);
      a % b
    else
      var s := (-a) % b;
      var k := (-a) / b;
      assert a == -s + b * (-k);
      ModAddMultiple(-s, b, -k);
      -s
  }

  /** Bitwise `&` of two non-negative integers, bit by bit from the least
      significant end. */
  function BitAnd(a: nat, b: nat): nat
    decreases a
  {
    if a == 0 || b == 0 then 0
    else 2 * BitAnd(a / 2, b / 2) + (if a % 2 == 1 && b % 2 == 1 then 1 else 0)
  }

  /** Masking with 2^k - 1 keeps the low k bits, that is, the remainder
      modulo 2^k. */
  lemma {:induction false} BitAndLowMask(u: nat, k: nat)
    ensures BitAnd(u, Pow2(k) - 1) == u % Pow2(k)
  {
    if k == 0 {
      DivModUnique(u, 1, u, 0);
    } else if u == 0 {
      DivModUnique(0, Pow2(k), 0, 0);
    } else {
      var p := Pow2(k - 1);
      var m := Pow2(k) - 1;
      assert Pow2(k) == 2 * p;
      BitAndOddMask(u, m, p);
      BitAndLowMask(u / 2, k - 1);
      HalveAndDouble(u, p);
      assert BitAnd(u, m) == 2 * ((u / 2) % p) + u % 2;
    }
  }

  /** One unfolding of BitAnd against an odd mask: the low bit of u survives. */
  lemma BitAndOddMask(u: nat, m: nat, p: nat)
    requires u > 0 && p >= 1 && m == 2 * (p - 1) + 1
    ensures BitAnd(u, m) == 2 * BitAnd(u / 2, p - 1) + u % 2
  {
    DivModUnique(m, 2, p - 1, 1);
  }

  /** The residue modulo 2p is twice the residue of u / 2 modulo p, plus the
      low bit of u. */
  lemma HalveAndDouble(u: nat, p: nat)
    requires p >= 1
    ensures u % (2 * p) == 2 * ((u / 2) % p) + u % 2
  {
    var h, l := (u / 2) / p, (u / 2) % p;
    assert u / 2 == p * h + l;
    assert u == 2 * (u / 2) + u % 2;
    assert u == (2 * p) * h + (2 * l + u % 2);
    DivModUnique(u, 2 * p, h, 2 * l + u % 2);
  }

  /** `x & 2047` for an `isize` x: the `&` acts on the 64-bit two's-complement
      pattern `x % 2^64`; the result is the non-negative residue of x modulo
      2048, so it is never negative and always indexes a 2048-slot table. */
  function And2047(x: int): (r: int)
    requires InRange(x)
    ensures 0 <= r < 2048
    ensures r == x % 2048
  {
    var pattern := x % Modulus;
    assert Pow2(11) == 2048 by {
      assert Pow2(3) == 8;
      assert Pow2(7) == 128;
    }
    BitAndLowMask(pattern, 11);
    assert x == Modulus * (x / Modulus) + pattern;
    assert x == 2048 * (0x20_0000_0000_0000 * (x / Modulus)) + pattern;
    ModAddMultiple(pattern, 2048, 0x20_0000_0000_0000 * (x / Modulus));
    BitAnd(pattern, 2047)
  }
}
