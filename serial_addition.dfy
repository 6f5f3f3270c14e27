/**
 * The identities behind the C2 serial-addition canonicalisation tests: a chain
 * of additions, shifts and multiplications of the same operand `a` is checked
 * against `base * factor`. Each test method becomes a lemma that holds for
 * every `a` (the tests draw `a` at random), stating both what `verifyResult`
 * checks and the strength-reduced form the test's comment names.
 */
module SerialAdditionCanonicalization {
  import opened JavaArith

  /** `verifyResult(int base, long factor, int observed)`: the factor is narrowed to int before multiplying. */
  function VerifyResultInt(base: JInt, factor: JLong, observed: JInt): (ok: bool)
    ensures ok <==> Congruent(Int, observed, base * factor)
  {
    var expected := Mul(Int, base, Wrap(Int, factor));
    MulWrapped(Int, factor, base);
    WrapMatches(Int, base * factor, observed);
    expected == observed
  }

  /** `verifyResult(long base, long factor, long observed)`. */
  function VerifyResultLong(base: JLong, factor: JLong, observed: JLong): (ok: bool)
    ensures ok <==> Congruent(Long, observed, base * factor)
  {
    var expected := Mul(Long, base, factor);
    WrapMatches(Long, base * factor, observed);
    expected == observed
  }

  /** A value of the type equals the narrowing of x exactly when it is congruent to x. */
  lemma WrapMatches(w: Width, x: int, o: int)
    requires InRange(w, o)
    ensures Wrap(w, x) == o <==> Congruent(w, o, x)
  {
    if Congruent(w, o, x) {
      WrapCongruent(w, o, x);
    }
  }

  /** `a + a + ... + a` with n operands, added left to right. */
  function RepeatAdd(w: Width, a: int, n: nat): int
    requires n >= 1
  {
    if n == 1 then a else Add(w, RepeatAdd(w, a, n - 1), a)
  }

  /** Adding `a` to itself n times is `a * n` with wrap-around. */
  lemma {:induction false} SerialAdditionIsMultiplication(w: Width, a: int, n: nat)
    requires InRange(w, a) && n >= 1
    ensures RepeatAdd(w, a, n) == Mul(w, a, n)
  {
    if n > 1 {
      SerialAdditionIsMultiplication(w, a, n - 1);
      calc {
        RepeatAdd(w, a, n);
        Wrap(w, Wrap(w, a * (n - 1)) + a);
        { AddWrapped(w, a * (n - 1), a); }
        Wrap(w, a * (n - 1) + a);
        { assert a * (n - 1) + a == a * n; }
        Wrap(w, a * n);
      }
    }
  }

  /** What `verifyResult` accepts: the wrapped product itself. */
  lemma VerifyResultLongAccepts(a: JLong, factor: JLong)
    ensures VerifyResultLong(a, factor, Mul(Long, a, factor))
  {
    WrapIsCongruent(Long, a * factor);
  }

  /** What the int `verifyResult` accepts: the wrapped product with the un-narrowed factor. */
  lemma VerifyResultIntAccepts(a: JInt, factor: JLong)
    ensures VerifyResultInt(a, factor, Mul(Int, a, factor))
  {
    WrapIsCongruent(Int, a * factor);
  }

  // The rewrite rules the tests exercise, for either width and any constants.

  /** A value of the type is its own product with 1. */
  lemma MulOne(w: Width, a: int)
    requires InRange(w, a)
    ensures Mul(w, a, 1) == a
  {
    WrapIsCongruent(w, a);
  }

  /** `-a` is `a * -1`. */
  lemma NegIsMul(w: Width, a: int)
    ensures Neg(w, a) == Mul(w, a, -1)
  {
    assert -a == a * -1;
  }

  /** `a * c + a` is `a * (c + 1)`. */
  lemma MulPlusOperand(w: Width, a: int, c: int)
    requires InRange(w, a)
    ensures Add(w, Mul(w, a, c), a) == Mul(w, a, c + 1)
  {
    AddWrapped(w, a * c, a);
    assert a * c + a == a * (c + 1);
  }

  /** `a * c + a * d` is `a * (c + d)`. */
  lemma MulPlusMul(w: Width, a: int, c: int, d: int)
    ensures Add(w, Mul(w, a, c), Mul(w, a, d)) == Mul(w, a, c + d)
  {
    AddWrapped(w, a * c, Mul(w, a, d));
    SubWrapped(w, a * d, -(a * c));
    assert a * c - -(a * d) == a * c + a * d == a * (c + d);
  }

  /** `a * c - a * d` is `a * (c - d)`. */
  lemma MulMinusMul(w: Width, a: int, c: int, d: int)
    ensures Sub(w, Mul(w, a, c), Mul(w, a, d)) == Mul(w, a, c - d)
  {
    SubWrapped(w, a * c, Mul(w, a, d));
    SubWrapped(w, a * d, a * c);
    assert a * c - a * d == a * (c - d);
  }

  /** Congruent constant factors give the same product. */
  lemma MulFactorCongruent(w: Width, a: int, c: int, d: int)
    requires Congruent(w, c, d)
    ensures Mul(w, a, c) == Mul(w, a, d)
  {
    CongruentScale(w, c, d, a);
    assert a * c == c * a && a * d == d * a;
    WrapCongruent(w, a * c, a * d);
  }

  const INT_MAX_MINUS_ONE: JInt := MaxValue(Int) - 1
  const LONG_MAX_MINUS_ONE: JLong := MaxValue(Long) - 1

  // ----- long tests -----

  /** `addTo3L`: a + a + a == a * 3 == (a << 1) + a. */
  lemma AddTo3L(a: JLong)
    ensures VerifyResultLong(a, 3, RepeatAdd(Long, a, 3))
    ensures RepeatAdd(Long, a, 3) == Add(Long, Shl(Long, a, 1), a)
  {
    SerialAdditionIsMultiplication(Long, a, 3);
    VerifyResultLongAccepts(a, 3);
    ShlIsMul(Long, a, 1);
    MulPlusOperand(Long, a, 2);
  }

  /** `addTo4L`: a + a + a + a == a * 4 == a << 2. */
  lemma AddTo4L(a: JLong)
    ensures VerifyResultLong(a, 4, RepeatAdd(Long, a, 4))
    ensures RepeatAdd(Long, a, 4) == Shl(Long, a, 2)
  {
    SerialAdditionIsMultiplication(Long, a, 4);
    VerifyResultLongAccepts(a, 4);
    ShlIsMul(Long, a, 2);
  }

  /** `shiftAndAddTo4L`: (a << 1) + a + a == a * 4 == a << 2. */
  lemma ShiftAndAddTo4L(a: JLong)
    ensures VerifyResultLong(a, 4, Add(Long, Add(Long, Shl(Long, a, 1), a), a))
    ensures Add(Long, Add(Long, Shl(Long, a, 1), a), a) == Shl(Long, a, 2)
  {
    ShlIsMul(Long, a, 1);
    MulPlusOperand(Long, a, 2);
    MulPlusOperand(Long, a, 3);
    ShlIsMul(Long, a, 2);
    VerifyResultLongAccepts(a, 4);
  }

  /** `mulAndAddTo4L`: a * 3 + a == a * 4 == a << 2. */
  lemma MulAndAddTo4L(a: JLong)
    ensures VerifyResultLong(a, 4, Add(Long, Mul(Long, a, 3), a))
    ensures Add(Long, Mul(Long, a, 3), a) == Shl(Long, a, 2)
  {
    MulPlusOperand(Long, a, 3);
    ShlIsMul(Long, a, 2);
    VerifyResultLongAccepts(a, 4);
  }

  /** `addTo5L`: five additions of a == a * 5 == (a << 2) + a. */
  lemma AddTo5L(a: JLong)
    ensures VerifyResultLong(a, 5, RepeatAdd(Long, a, 5))
    ensures RepeatAdd(Long, a, 5) == Add(Long, Shl(Long, a, 2), a)
  {
    SerialAdditionIsMultiplication(Long, a, 5);
    VerifyResultLongAccepts(a, 5);
    ShlIsMul(Long, a, 2);
    MulPlusOperand(Long, a, 4);
  }

  /** `addTo6L`: six additions of a == a * 6 == (a << 1) + (a << 2). */
  lemma AddTo6L(a: JLong)
    ensures VerifyResultLong(a, 6, RepeatAdd(Long, a, 6))
    ensures RepeatAdd(Long, a, 6) == Add(Long, Shl(Long, a, 1), Shl(Long, a, 2))
  {
    SerialAdditionIsMultiplication(Long, a, 6);
    VerifyResultLongAccepts(a, 6);
    ShlIsMul(Long, a, 1);
    ShlIsMul(Long, a, 2);
    MulPlusMul(Long, a, 2, 4);
  }

  /** `addTo7L`: seven additions of a == a * 7 == (a << 3) - a. */
  lemma AddTo7L(a: JLong)
    ensures VerifyResultLong(a, 7, RepeatAdd(Long, a, 7))
    ensures RepeatAdd(Long, a, 7) == Sub(Long, Shl(Long, a, 3), a)
  {
    SerialAdditionIsMultiplication(Long, a, 7);
    VerifyResultLongAccepts(a, 7);
    ShlIsMul(Long, a, 3);
    MulOne(Long, a);
    MulMinusMul(Long, a, 8, 1);
  }

  /** `addTo8`: eight additions of a long == a * 8 == a << 3. */
  lemma AddTo8(a: JLong)
    ensures VerifyResultLong(a, 8, RepeatAdd(Long, a, 8))
    ensures RepeatAdd(Long, a, 8) == Shl(Long, a, 3)
  {
    SerialAdditionIsMultiplication(Long, a, 8);
    VerifyResultLongAccepts(a, 8);
    ShlIsMul(Long, a, 3);
  }

  /** `mulAndAddToMaxL`: a * (MAX - 1) + a == a * MAX == (a << 63) - a. */
  lemma MulAndAddToMaxL(a: JLong)
    ensures VerifyResultLong(a, MaxValue(Long), Add(Long, Mul(Long, a, LONG_MAX_MINUS_ONE), a))
    ensures Add(Long, Mul(Long, a, LONG_MAX_MINUS_ONE), a) == Mul(Long, a, MaxValue(Long))
    ensures Mul(Long, a, MaxValue(Long)) == Sub(Long, Shl(Long, a, 63), a)
  {
    MulPlusOperand(Long, a, LONG_MAX_MINUS_ONE);
    VerifyResultLongAccepts(a, MaxValue(Long));
    Pow2Of63();
    ShlIsMul(Long, a, 63);
    MulOne(Long, a);
    MulMinusMul(Long, a, 0x8000_0000_0000_0000, 1);
  }

  /** `mulAndAddToOverflowL`: a * MAX + a == a * MIN == a << 63. */
  lemma MulAndAddToOverflowL(a: JLong)
    ensures VerifyResultLong(a, MinValue(Long), Add(Long, Mul(Long, a, MaxValue(Long)), a))
    ensures Add(Long, Mul(Long, a, MaxValue(Long)), a) == Shl(Long, a, 63)
  {
    var product := Mul(Long, a, MinValue(Long));
    MulPlusOperand(Long, a, MaxValue(Long));
    assert Add(Long, Mul(Long, a, MaxValue(Long)), a) == Mul(Long, a, 0x8000_0000_0000_0000);
    Pow2Of63();
    ShlIsMul(Long, a, 63);
    assert Shl(Long, a, 63) == Mul(Long, a, 0x8000_0000_0000_0000);
    MulFactorCongruent(Long, a, 0x8000_0000_0000_0000, MinValue(Long));
    assert Mul(Long, a, 0x8000_0000_0000_0000) == product;
    VerifyResultLongAccepts(a, MinValue(Long));
  }

  // ----- int tests -----

  /** `addTo16`: sixteen additions of an int == a * 16 == a << 4. */
  lemma AddTo16(a: JInt)
    ensures VerifyResultInt(a, 16, RepeatAdd(Int, a, 16))
    ensures RepeatAdd(Int, a, 16) == Shl(Int, a, 4)
  {
    SerialAdditionIsMultiplication(Int, a, 16);
    VerifyResultIntAccepts(a, 16);
    ShlIsMul(Int, a, 4);
  }

  /** `addTo42`: forty-two additions of an int == a * 42. */
  lemma AddTo42(a: JInt)
    ensures VerifyResultInt(a, 42, RepeatAdd(Int, a, 42))
    ensures RepeatAdd(Int, a, 42) == Mul(Int, a, 42)
  {
    SerialAdditionIsMultiplication(Int, a, 42);
    VerifyResultIntAccepts(a, 42);
  }

  /** `mulAndAddTo42`: a * 40 + a + a == a * 42. */
  lemma MulAndAddTo42(a: JInt)
    ensures VerifyResultInt(a, 42, Add(Int, Add(Int, Mul(Int, a, 40), a), a))
    ensures Add(Int, Add(Int, Mul(Int, a, 40), a), a) == Mul(Int, a, 42)
  {
    MulPlusOperand(Int, a, 40);
    MulPlusOperand(Int, a, 41);
    VerifyResultIntAccepts(a, 42);
  }

  /** `mulAndAddToMax`: a * (MAX - 1) + a == a * MAX == (a << 31) - a. */
  lemma MulAndAddToMax(a: JInt)
    ensures VerifyResultInt(a, MaxValue(Int), Add(Int, Mul(Int, a, INT_MAX_MINUS_ONE), a))
    ensures Add(Int, Mul(Int, a, INT_MAX_MINUS_ONE), a) == Mul(Int, a, MaxValue(Int))
    ensures Mul(Int, a, MaxValue(Int)) == Sub(Int, Shl(Int, a, 31), a)
  {
    MulPlusOperand(Int, a, INT_MAX_MINUS_ONE);
    VerifyResultIntAccepts(a, MaxValue(Int));
    Pow2Of31();
    ShlIsMul(Int, a, 31);
    MulOne(Int, a);
    MulMinusMul(Int, a, 0x8000_0000, 1);
  }

  /** `mulAndAddToOverflow`: a * MAX + a == a * MIN == a << 31. */
  lemma MulAndAddToOverflow(a: JInt)
    ensures VerifyResultInt(a, MinValue(Int), Add(Int, Mul(Int, a, MaxValue(Int)), a))
    ensures Add(Int, Mul(Int, a, MaxValue(Int)), a) == Shl(Int, a, 31)
  {
    MulPlusOperand(Int, a, MaxValue(Int));
    Pow2Of31();
    ShlIsMul(Int, a, 31);
    MulFactorCongruent(Int, a, 0x8000_0000, MinValue(Int));
    VerifyResultIntAccepts(a, MinValue(Int));
  }

  /** `mulAndAddToZero`: a * -1 + a == 0. */
  lemma MulAndAddToZero(a: JInt)
    ensures VerifyResultInt(a, 0, Add(Int, Mul(Int, a, -1), a))
    ensures Add(Int, Mul(Int, a, -1), a) == 0
  {
    MulPlusOperand(Int, a, -1);
    VerifyResultIntAccepts(a, 0);
  }

  /** `mulAndAddToMinus1`: a * -2 + a == -a == a - (a << 1). */
  lemma MulAndAddToMinus1(a: JInt)
    ensures VerifyResultInt(a, -1, Add(Int, Mul(Int, a, -2), a))
    ensures Add(Int, Mul(Int, a, -2), a) == Neg(Int, a)
    ensures Neg(Int, a) == Sub(Int, a, Shl(Int, a, 1))
  {
    MulPlusOperand(Int, a, -2);
    VerifyResultIntAccepts(a, -1);
    NegIsMul(Int, a);
    ShlIsMul(Int, a, 1);
    MulOne(Int, a);
    MulMinusMul(Int, a, 1, 2);
  }

  /** `mulAndAddToMinus42`: a * -43 + a == a * -42. */
  lemma MulAndAddToMinus42(a: JInt)
    ensures VerifyResultInt(a, -42, Add(Int, Mul(Int, a, -43), a))
    ensures Add(Int, Mul(Int, a, -43), a) == Mul(Int, a, -42)
  {
    MulPlusOperand(Int, a, -43);
    VerifyResultIntAccepts(a, -42);
  }

  /**
   * The comments of `mulAndAddToMax` and `mulAndAddToMaxL` name the reduced
   * form `(a << 31) - 1` (and `(a << 63) - 1`); already for a == 0 it differs
   * from `a * MAX`, whereas `(a << 31) - a` is proved equal above.
   */
  lemma MaxCommentFormDiffers()
    ensures Sub(Int, Shl(Int, 0, 31), 1) != Mul(Int, 0, MaxValue(Int))
    ensures Sub(Long, Shl(Long, 0, 63), 1) != Mul(Long, 0, MaxValue(Long))
  {
  }
}
