/**
 * Two's-complement arithmetic of Java's `int` and `long`, as fixed by the
 * Java Language Specification (sections 15.17, 15.18 and 15.19): every
 * operation computes the mathematical result and keeps its low 32 or 64 bits,
 * read back as a signed value. Values are mathematical integers kept in range;
 * no bit-vector multiplication is used.
 */
module JavaArith {
  import opened ModArith

  /** The two integral widths the tests use. */
  datatype Width = Int | Long

  function Bits(w: Width): nat
  {
    match w
    case Int => 32
    case Long => 64
  }

  /** 2^Bits(w), the number of distinct values of the type. */
  function Modulus(w: Width): int
  {
    match w
    case Int => 0x1_0000_0000
    case Long => 0x1_0000_0000_0000_0000
  }

  function MinValue(w: Width): int
  {
    match w
    case Int => -0x8000_0000
    case Long => -0x8000_0000_0000_0000
  }

  function MaxValue(w: Width): int
  {
    match w
    case Int => 0x7fff_ffff
    case Long => 0x7fff_ffff_ffff_ffff
  }

  predicate InRange(w: Width, x: int)
  {
    MinValue(w) <= x <= MaxValue(w)
  }

  type JInt = x: int | -0x8000_0000 <= x <= 0x7fff_ffff
  type JLong = x: int | -0x8000_0000_0000_0000 <= x <= 0x7fff_ffff_ffff_ffff

  /** x and y leave the same remainder modulo 2^Bits(w). */
  predicate Congruent(w: Width, x: int, y: int)
  {
    (x - y) % Modulus(w) == 0
  }

  /**
   * Narrowing of a mathematical integer to the type: the unique value of the
   * type that is congruent to x.
   */
  function Wrap(w: Width, x: int): (r: int)
    ensures InRange(w, r)
  {
    match w
    case Int => (x + 0x8000_0000) % 0x1_0000_0000 - 0x8000_0000
    case Long => (x + 0x8000_0000_0000_0000) % 0x1_0000_0000_0000_0000 - 0x8000_0000_0000_0000
  }

  /** Narrowing keeps the value modulo 2^Bits(w), and keeps a value already in range. */
  lemma WrapIsCongruent(w: Width, x: int)
    ensures Congruent(w, Wrap(w, x), x)
    ensures InRange(w, x) ==> Wrap(w, x) == x
  {
  }

  /** Congruent integers narrow to the same value. */
  lemma WrapCongruent(w: Width, x: int, y: int)
    requires Congruent(w, x, y)
    ensures Wrap(w, x) == Wrap(w, y)
  {
    var m := Modulus(w);
    var h := -MinValue(w);
    var k := (x - y) / m;
    assert x == y + k * m;
    var d := (y + h) / m;
    assert y + h == d * m + (y + h) % m;
    assert x + h == (d + k) * m + (y + h) % m;
    ModUnique(x + h, d + k, (y + h) % m, m);
  }

  /** Congruence is kept by multiplying both sides by the same integer. */
  lemma CongruentScale(w: Width, x: int, y: int, c: int)
    requires Congruent(w, x, y)
    ensures Congruent(w, c * x, c * y)
  {
    var m := Modulus(w);
    var k := (x - y) / m;
    assert x - y == k * m;
    assert c * x - c * y == (c * k) * m;
  }

  function Add(w: Width, a: int, b: int): int { Wrap(w, a + b) }
  function Sub(w: Width, a: int, b: int): int { Wrap(w, a - b) }
  function Mul(w: Width, a: int, b: int): int { Wrap(w, a * b) }
  function Neg(w: Width, a: int): int { Wrap(w, -a) }

  /** 2^n. */
  function Pow2(n: nat): nat
  {
    if n == 0 then 1 else 2 * Pow2(n - 1)
  }

  /** 2^(n+m) == 2^n * 2^m. */
  lemma {:induction false} Pow2Add(n: nat, m: nat)
    ensures Pow2(n + m) == Pow2(n) * Pow2(m)
  {
    if n > 0 {
      Pow2Add(n - 1, m);
      assert Pow2(n + m) == 2 * Pow2(n - 1 + m);
    }
  }

  /** 2^31, the shift factor of `a << 31`. */
  lemma Pow2Of31()
    ensures Pow2(31) == 0x8000_0000
  {
    assert Pow2(8) == 0x100;
    assert Pow2(16) == 0x1_0000;
    assert Pow2(24) == 0x100_0000;
  }

  /** 2^63, the shift factor of `a << 63`. */
  lemma Pow2Of63()
    ensures Pow2(63) == 0x8000_0000_0000_0000
  {
    Pow2Of31();
    Pow2Add(32, 31);
    assert Pow2(32) == 2 * Pow2(31);
  }

  /**
   * `a << n`: only the low 5 (int) or 6 (long) bits of the shift distance
   * are used, and the shifted-out bits are lost.
   */
  function Shl(w: Width, a: int, n: int): int
  {
    Wrap(w, a * Pow2(n % Bits(w)))
  }

  /** A shift by a distance below the width is a multiplication by a power of two. */
  lemma ShlIsMul(w: Width, a: int, n: nat)
    requires n < Bits(w)
    ensures Shl(w, a, n) == Mul(w, a, Pow2(n))
  {
    match w
    case Int => assert n % 32 == n;
    case Long => assert n % 64 == n;
  }

  /** Wrapping an operand first does not change a sum. */
  lemma AddWrapped(w: Width, x: int, y: int)
    ensures Wrap(w, Wrap(w, x) + y) == Wrap(w, x + y)
  {
    WrapIsCongruent(w, x);
    assert (Wrap(w, x) + y) - (x + y) == Wrap(w, x) - x;
    WrapCongruent(w, Wrap(w, x) + y, x + y);
  }

  /** Wrapping either operand first does not change a difference. */
  lemma SubWrapped(w: Width, x: int, y: int)
    ensures Wrap(w, Wrap(w, x) - y) == Wrap(w, x - y)
    ensures Wrap(w, y - Wrap(w, x)) == Wrap(w, y - x)
  {
    WrapIsCongruent(w, x);
    assert (Wrap(w, x) - y) - (x - y) == Wrap(w, x) - x;
    WrapCongruent(w, Wrap(w, x) - y, x - y);
    assert (y - Wrap(w, x)) - (y - x) == -(Wrap(w, x) - x);
    WrapCongruent(w, y - Wrap(w, x), y - x);
  }

  /** Wrapping a factor first does not change a product. */
  lemma MulWrapped(w: Width, x: int, c: int)
    ensures Wrap(w, c * Wrap(w, x)) == Wrap(w, c * x)
  {
    WrapIsCongruent(w, x);
    CongruentScale(w, Wrap(w, x), x, c);
    WrapCongruent(w, c * Wrap(w, x), c * x);
  }
}
