/** Bytes; and shifts, or, exclusive or and carry-less multiplication on natural numbers. */
module BitOps {
  type Byte = x: nat | x < 256

  /** A floppy sector's worth of bytes. */
  type Page = p: seq<Byte> | |p| == 256 witness seq(256, _ => 0)

  // ---------- shifts and or on non-negative numbers ----------

  function Shl(v: nat, n: nat): (r: nat) {
    if n == 0 then v else 2 * Shl(v, n - 1)
  }

  function Shr(v: nat, n: nat): (r: nat) {
    if n == 0 then v else Shr(v, n - 1) / 2
  }

  function Or(a: nat, b: nat): (r: nat) {
    if a == 0 then b else if b == 0 then a
    else 2 * Or(a / 2, b / 2) + (if a % 2 == 1 || b % 2 == 1 then 1 else 0)
  }

  lemma {:induction false} ShlAdd(a: nat, b: nat, n: nat)
    ensures Shl(a + b, n) == Shl(a, n) + Shl(b, n)
  {
    if n == 0 {
    } else {
      ShlAdd(a, b, n - 1);
    }
  }

  lemma {:induction false} ShlTwice(v: nat, m: nat, n: nat)
    ensures Shl(Shl(v, m), n) == Shl(v, m + n)
  {
    if n == 0 {
    } else {
      ShlTwice(v, m, n - 1);
    }
  }

  lemma {:induction false} ShlBelow(v: nat, m: nat, n: nat)
    requires v < Shl(1, m)
    ensures Shl(v, n) < Shl(1, m + n)
  {
    if n == 0 {
    } else {
      ShlBelow(v, m, n - 1);
    }
  }

  /** Where the operands share no bit, `|` is addition. */
  lemma {:induction false} OrDisjoint(a: nat, b: nat, n: nat)
    requires b < Shl(1, n)
    ensures Or(Shl(a, n), b) == Shl(a, n) + b
  {
    if n == 0 {
    } else {
      OrDisjoint(a, b / 2, n - 1);
    }
  }

  lemma Powers(v: nat)
    ensures Shl(v, 8) == 0x100 * v && Shl(v, 16) == 0x1_0000 * v
  {
    assert Shl(v, 1) == 2 * v;
    assert Shl(v, 2) == 4 * v;
    assert Shl(v, 4) == 0x10 * v;
    assert Shl(v, 6) == 0x40 * v;
    assert Shl(v, 8) == 0x100 * v;
    assert Shl(v, 10) == 0x400 * v;
    assert Shl(v, 12) == 0x1000 * v;
    assert Shl(v, 14) == 0x4000 * v;
  }

  lemma {:induction false} ShrShl(a: nat, c: nat, n: nat)
    requires c < Shl(1, n)
    ensures Shr(Shl(a, n) + c, n) == a
  {
    if n == 0 {
    } else {
      ShrHalf(Shl(a, n) + c, n);
      ShrShl(a, c / 2, n - 1);
    }
  }

  lemma {:induction false} ShrHalf(v: nat, n: nat)
    requires n > 0
    ensures Shr(v, n) == Shr(v / 2, n - 1)
  {
    if n <= 1 {
    } else {
      ShrHalf(v, n - 1);
    }
  }

  lemma {:induction false} PowerPositive(n: nat)
    ensures Shl(1, n) > 0
  {
    if n == 0 {
    } else {
      PowerPositive(n - 1);
    }
  }

  lemma {:induction false} ShrZero(n: nat)
    ensures Shr(0, n) == 0
  {
    if n == 0 {
    } else {
      ShrZero(n - 1);
    }
  }

  // ---------- exclusive or ----------

  function Xor(a: nat, b: nat): nat {
    if a == 0 then b else if b == 0 then a
    else 2 * Xor(a / 2, b / 2) + (if a % 2 != b % 2 then 1 else 0)
  }

  lemma {:induction false} XorStep(a: nat, b: nat)
    ensures Xor(a, b) / 2 == Xor(a / 2, b / 2)
    ensures Xor(a, b) % 2 == if a % 2 != b % 2 then 1 else 0
  {
  }

  lemma {:induction false} XorComm(a: nat, b: nat)
    ensures Xor(a, b) == Xor(b, a)
  {
    if a == 0 || b == 0 {
    } else {
      XorComm(a / 2, b / 2);
    }
  }

  lemma {:induction false} XorSelf(a: nat)
    ensures Xor(a, a) == 0
  {
    if a == 0 {
    } else {
      XorSelf(a / 2);
    }
  }

  lemma {:induction false} XorAssoc(a: nat, b: nat, c: nat)
    ensures Xor(Xor(a, b), c) == Xor(a, Xor(b, c))
    decreases a + b + c
  {
    if a == 0 || b == 0 || c == 0 {
    } else {
      XorAssoc(a / 2, b / 2, c / 2);
      XorStep(a, b);
      XorStep(b, c);
      XorStep(Xor(a, b), c);
      XorStep(a, Xor(b, c));
    }
  }

  lemma {:induction false} XorDouble(a: nat, b: nat)
    ensures Xor(2 * a, 2 * b) == 2 * Xor(a, b)
    ensures Xor(2 * a, 2 * b + 1) == 2 * Xor(a, b) + 1
  {
    hide Xor;
    XorStep(2 * a, 2 * b);
    XorStep(2 * a, 2 * b + 1);
  }

  /** Undoing an exclusive or. */
  lemma XorCancel(a: nat, b: nat)
    ensures Xor(Xor(a, b), b) == a && Xor(a, Xor(a, b)) == b
  {
    XorAssoc(a, b, b);
    XorAssoc(a, a, b);
    XorSelf(a);
    XorSelf(b);
  }

  lemma XorEqual(a: nat, b: nat)
    ensures Xor(a, b) == 0 <==> a == b
  {
    XorCancel(a, b);
    XorSelf(a);
  }

  /** Regrouping four terms. */
  lemma XorSwap(a: nat, b: nat, c: nat, d: nat)
    ensures Xor(Xor(a, b), Xor(c, d)) == Xor(Xor(a, c), Xor(b, d))
  {
    hide Xor;
    XorAssoc(a, b, Xor(c, d));
    XorAssoc(b, c, d);
    XorComm(b, c);
    XorAssoc(c, b, d);
    XorAssoc(a, c, Xor(b, d));
  }

  /** Exclusive or acts on the upper and the lower part separately. */
  lemma {:induction false} XorJoin(a: nat, a0: nat, b: nat, b0: nat, n: nat)
    requires a0 < Shl(1, n) && b0 < Shl(1, n)
    ensures Xor(Shl(a, n) + a0, Shl(b, n) + b0) == Shl(Xor(a, b), n) + Xor(a0, b0)
    ensures Xor(a0, b0) < Shl(1, n)
  {
    hide Xor;
    if n == 0 {
      XorZero(0);
    } else {
      XorJoin(a, a0 / 2, b, b0 / 2, n - 1);
      XorStep(Shl(a, n) + a0, Shl(b, n) + b0);
      XorStep(a0, b0);
    }
  }

  lemma XorByte(a: nat, b: nat)
    ensures Xor(a, b) / 256 == Xor(a / 256, b / 256) && Xor(a, b) % 256 == Xor(a % 256, b % 256)
  {
    hide Xor, Shl;
    Powers(1); Powers(a / 256); Powers(b / 256);
    XorJoin(a / 256, a % 256, b / 256, b % 256, 8);
    Powers(Xor(a / 256, b / 256));
  }

  lemma XorBelow(a: nat, b: nat, n: nat)
    requires a < Shl(1, n) && b < Shl(1, n)
    ensures Xor(a, b) < Shl(1, n)
  {
    XorJoin(0, a, 0, b, n);
  }

  // ---------- carry-less multiplication ----------

  function Clmul(a: nat, b: nat): nat {
    if a == 0 then 0 else Xor(if a % 2 == 1 then b else 0, 2 * Clmul(a / 2, b))
  }

  /** A new top bit in the first factor adds a shifted copy of the second. */
  lemma {:induction false} ClmulTop(a: nat, q: nat, b: nat, n: nat)
    requires a < Shl(1, n) && q <= 1
    ensures Clmul(a + Shl(q, n), b) == Xor(Clmul(a, b), Shl(if q == 1 then b else 0, n))
  {
    hide Xor;
    var m := if q == 1 then b else 0;
    XorZero(b);
    XorZero(0);
    if n == 0 {
    } else {
      var c := a + Shl(q, n);
      assert c % 2 == a % 2 && c / 2 == a / 2 + Shl(q, n - 1);
      hide Shl, Clmul;
      ClmulTop(a / 2, q, b, n - 1);
      ClmulStep(a, b);
      ClmulStep(c, b);
      ShlStep(m, n);
      XorDouble(Clmul(a / 2, b), Shl(m, n - 1));
      XorAssoc(if a % 2 == 1 then b else 0, 2 * Clmul(a / 2, b), Shl(m, n));
    }
  }

  lemma ClmulStep(a: nat, b: nat)
    ensures Clmul(a, b) == Xor(if a % 2 == 1 then b else 0, 2 * Clmul(a / 2, b))
  {
    if a == 0 { XorZero(0); }
  }

  lemma ShlStep(v: nat, n: nat)
    requires n > 0
    ensures Shl(v, n) == 2 * Shl(v, n - 1)
  {
  }

  lemma XorZero(b: nat)
    ensures Xor(b, 0) == b && Xor(0, b) == b
  {
  }

  lemma {:induction false} ShlZero(n: nat)
    ensures Shl(0, n) == 0
  {
    if n == 0 {
    } else {
      ShlZero(n - 1);
    }
  }
}
