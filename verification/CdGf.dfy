/** GF(256) modulo x^8 + x^4 + x^3 + x^2 + 1, and the parity bytes of a codeword. */
module CdGf {
  import opened BitOps

  // ---------- multiplication by the primitive element ----------

  function Mask(x: Byte): nat { if x >= 128 then 0x11D else 0 }

  /** Shift, and reduce by the field polynomial when a bit falls out. */
  function TimesAlpha(x: Byte): Byte {
    TimesAlphaFits(x);
    Xor(2 * x, Mask(x))
  }

  lemma TimesAlphaFits(x: Byte)
    ensures Xor(2 * x, Mask(x)) < 256
  {
    hide Xor;
    XorByte(2 * x, Mask(x));
    XorSelf(1);
    XorZero(0);
  }

  lemma XorFits(x: Byte, y: Byte)
    ensures Xor(x, y) < 256
  {
    Powers(1);
    XorBelow(x, y, 8);
  }

  function Add(x: Byte, y: Byte): Byte {
    XorFits(x, y);
    Xor(x, y)
  }

  lemma TopBit(x: Byte, y: Byte)
    ensures Add(x, y) >= 128 <==> (x >= 128) != (y >= 128)
  {
    hide Xor, Shl;
    assert Shl(1, 7) == 128 && Shl(x / 128, 7) == 128 * (x / 128) && Shl(y / 128, 7) == 128 * (y / 128) by {
      Times128(1); Times128(x / 128); Times128(y / 128);
    }
    XorJoin(x / 128, x % 128, y / 128, y % 128, 7);
    Times128(Xor(x / 128, y / 128));
    XorSelf(1);
    XorZero(0);
    XorZero(1);
  }

  lemma Times128(v: nat)
    ensures Shl(v, 7) == 128 * v
  {
    Powers(v);
    assert Shl(v, 8) == 2 * Shl(v, 7);
  }

  lemma TimesAlphaAdd(x: Byte, y: Byte)
    ensures TimesAlpha(Add(x, y)) == Add(TimesAlpha(x), TimesAlpha(y))
  {
    hide Xor;
    TopBit(x, y);
    XorDouble(x, y);
    XorSwap(2 * x, Mask(x), 2 * y, Mask(y));
    XorSelf(0x11D);
    XorZero(0x11D);
    XorZero(0);
  }

  /** Multiplication by 1 + alpha. */
  function TimesThree(x: Byte): Byte { Add(x, TimesAlpha(x)) }

  // ---------- division by 1 + alpha ----------

  /** Whether a polynomial has an odd number of terms. */
  function Odd(w: nat): bool {
    if w == 0 then false else (w % 2 == 1) != Odd(w / 2)
  }

  /** The quotient of a polynomial by 1 + x, the remainder dropped. */
  function Quotient(w: nat): nat {
    if w == 0 then 0 else Xor(w / 2, Quotient(w / 2))
  }

  lemma {:induction false} QuotientTimesThree(w: nat)
    ensures Xor(Quotient(w), 2 * Quotient(w)) == Xor(w, if Odd(w) then 1 else 0)
  {
    hide Xor;
    if w == 0 {
      XorZero(0);
    } else {
      var v := w / 2;
      var q := Quotient(v);
      var o := if Odd(v) then 1 else 0;
      QuotientTimesThree(v);
      XorDouble(v, q);
      XorSwap(v, q, 2 * v, 2 * q);
      // (v + 2v) + (v + o)
      XorComm(v, 2 * v);
      XorAssoc(2 * v, v, Xor(v, o));
      XorCancel(v, o);
      XorComm(v, Xor(v, o));
      LowBits(v, o, w % 2);
    }
  }

  /** An even number takes a low bit by addition. */
  lemma LowBits(v: nat, o: nat, b: nat)
    requires o <= 1 && b <= 1
    ensures Xor(2 * v, o) == Xor(2 * v + b, if o != b then 1 else 0)
  {
    XorStep(2 * v, o);
    XorStep(2 * v + b, if o != b then 1 else 0);
    XorZero(v);
  }

  lemma {:induction false} OddXor(a: nat, b: nat)
    ensures Odd(Xor(a, b)) == (Odd(a) != Odd(b))
    decreases a
  {
    if a == 0 || b == 0 {
    } else {
      OddXor(a / 2, b / 2);
      XorStep(a, b);
      OddHalf(a); OddHalf(b); OddHalf(Xor(a, b));
    }
  }

  lemma OddHalf(a: nat)
    ensures Odd(a) == ((a % 2 == 1) != Odd(a / 2))
  {
  }

  /** The top bit of a sum, when only one term reaches that far. */
  lemma XorTop(a: nat, b: nat, n: nat)
    requires a < Shl(2, n) && b < Shl(1, n)
    ensures Xor(a, b) < Shl(2, n) && (Xor(a, b) >= Shl(1, n) <==> a >= Shl(1, n))
  {
    hide Xor, Shl;
    ShlAdd(1, 1, n);
    var a1 := if a >= Shl(1, n) then 1 else 0;
    ShlZero(n);
    XorJoin(a1, a - Shl(a1, n), 0, b, n);
    XorZero(a1);
  }

  lemma {:induction false} QuotientSize(w: nat, n: nat)
    requires w < Shl(4, n)
    ensures Quotient(w) < Shl(2, n) && (Quotient(w) >= Shl(1, n) <==> w >= Shl(2, n))
  {
    hide Xor, Shl;
    if n == 0 {
      QuotientSmall(w);
    } else {
      var v := w / 2;
      ShlStep(4, n); ShlStep(2, n); ShlStep(1, n); PowerPositive(n);
      ShlTwo(n - 1);
      QuotientSize(v, n - 1);
      if w != 0 { XorTop(v, Quotient(v), n); }
    }
  }

  lemma QuotientSmall(w: nat)
    requires w < Shl(4, 0)
    ensures Quotient(w) < Shl(2, 0) && (Quotient(w) >= Shl(1, 0) <==> w >= Shl(2, 0))
  {
    assert Quotient(0) == 0 && Quotient(1) == 0;
    XorZero(1);
  }

  lemma {:induction false} ShlTwo(n: nat)
    ensures Shl(2, n) == 2 * Shl(1, n) && Shl(4, n) == 4 * Shl(1, n)
  {
    if n == 0 {
    } else {
      ShlTwo(n - 1);
    }
  }

  /** Make the number of terms even with the field polynomial, then divide. */
  function OverThree(y: Byte): Byte {
    EvenSize(y);
    Quotient(Even(y))
  }

  function Even(y: Byte): nat { if Odd(y) then Xor(y, 0x11D) else y }

  lemma EvenSize(y: Byte)
    ensures !Odd(Even(y)) && Even(y) < 512 && (Even(y) >= 256 <==> Odd(y))
    ensures Quotient(Even(y)) < 256 && (Quotient(Even(y)) >= 128 <==> Odd(y))
  {
    hide Xor, Quotient;
    OddMask();
    OddXor(y, 0x11D);
    XorByte(y, 0x11D);
    XorZero(1);
    Times128(1);
    Powers(1);
    ShlTwo(7);
    QuotientSize(Even(y), 7);
  }

  /** Multiplication and division by 1 + alpha undo each other. */
  lemma TimesOverThree(y: Byte)
    ensures TimesThree(OverThree(y)) == y
  {
    hide Xor, Quotient, Odd;
    EvenSize(y);
    var w: nat, q: nat := Even(y), OverThree(y);
    QuotientTimesThree(w);
    XorZero(w);
    XorAssoc(q, 2 * q, Mask(q));
    XorZero(y);
    XorCancel(y, 0x11D);
  }

  lemma TimesThreeAdd(x: Byte, y: Byte)
    ensures TimesThree(Add(x, y)) == Add(TimesThree(x), TimesThree(y))
  {
    hide Xor;
    TimesAlphaAdd(x, y);
    XorSwap(x, y, TimesAlpha(x), TimesAlpha(y));
  }

  /** Only zero is annihilated: a multiple of 1 + alpha keeps an even number of terms. */
  lemma TimesThreeZero(x: Byte)
    requires TimesThree(x) == 0
    ensures x == 0
  {
    hide Xor;
    XorEqual(x, TimesAlpha(x));
    if x >= 128 {
      OddMask();
      OddXor(2 * x, 0x11D);
      OddHalf(2 * x);
    } else {
      XorZero(2 * x);
    }
  }

  lemma OddMask()
    ensures Odd(0x11D)
  {
    OddHalf(17); OddHalf(8); OddHalf(4); OddHalf(2); OddHalf(1);
    OddHalf(0x11D); OddHalf(0x8E); OddHalf(0x47); OddHalf(0x23);
  }

  lemma TimesThreeInjective(x: Byte, y: Byte)
    requires TimesThree(x) == TimesThree(y)
    ensures x == y
  {
    hide Xor, TimesThree;
    TimesThreeAdd(x, y);
    XorSelf(TimesThree(x));
    TimesThreeZero(Add(x, y));
    XorEqual(x, y);
  }
}
