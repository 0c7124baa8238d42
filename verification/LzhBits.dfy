/** The bit reader: a 32-bit shift register fed a byte at a time, refining a plain bit string. */
module LzhBits {
  import opened BitOps

  type bit = b: nat | b <= 1

  // ---------- the input as an endless bit string ----------

  /** Bit `p` of the input, most significant bit of each byte first, then zeros for ever. */
  function StreamBit(src: seq<Byte>, p: nat): bit {
    if p / 8 < |src| then Shr(src[p / 8] as int, 7 - p % 8) % 2 else 0
  }

  /** The number written by the `n` bits from bit `p` on. */
  function BitsValue(src: seq<Byte>, p: nat, n: nat): (v: nat)
    ensures v < Shl(1, n)
  {
    if n == 0 then 0 else 2 * BitsValue(src, p, n - 1) + StreamBit(src, p + n - 1)
  }

  lemma {:induction false} BitsValueSplit(src: seq<Byte>, p: nat, m: nat, n: nat)
    ensures BitsValue(src, p, m + n) == Shl(BitsValue(src, p, m), n) + BitsValue(src, p + m, n)
  {
    if n == 0 {
    } else {
      BitsValueSplit(src, p, m, n - 1);
    }
  }

  /** Eight bits from a byte boundary are that byte. */
  lemma ByteAt(src: seq<Byte>, q: nat)
    ensures BitsValue(src, 8 * q, 8) == if q < |src| then src[q] as int else 0
  {
    ByteTop(src, q, 8);
  }

  lemma {:induction false} ByteTop(src: seq<Byte>, q: nat, n: nat)
    requires n <= 8
    ensures BitsValue(src, 8 * q, n) == Shr(if q < |src| then src[q] as int else 0, 8 - n)
  {
    var x: nat := if q < |src| then src[q] as int else 0;
    if n == 0 {
      assert Shr(x, 1) == x / 2;
      assert Shr(x, 2) == x / 4;
      assert Shr(x, 4) == x / 16;
      assert Shr(x, 6) == x / 64;
    } else {
      ByteTop(src, q, n - 1);
      assert (8 * q + n - 1) / 8 == q && (8 * q + n - 1) % 8 == n - 1;
      if q >= |src| { ShrZero(8 - n); }
    }
  }

  // ---------- the register ----------

  /** The low 16 bits of the register hold the next `n` bits of the input, left-aligned over zeros. */
  ghost predicate Holds(src: seq<Byte>, p: nat, getbuf: nat, n: nat) {
    n <= 16 && getbuf < 0x1_0000_0000 && getbuf % 0x1_0000 == Shl(BitsValue(src, p, n), 16 - n)
  }

  lemma HoldsSplit(src: seq<Byte>, p: nat, getbuf: nat, n: nat) returns (k: nat)
    requires Holds(src, p, getbuf, n)
    ensures getbuf == Shl(k, 16 - n) && k == Shl(getbuf / 0x1_0000, n) + BitsValue(src, p, n)
  {
    var h, v := getbuf / 0x1_0000, BitsValue(src, p, n);
    k := Shl(h, n) + v;
    ShlAdd(Shl(h, n), v, 16 - n);
    ShlTwice(h, n, 16 - n);
    Powers(h);
  }

  lemma AddBelow(a: nat, s: nat)
    requires a < 0x1_0000_0000 && a % 0x1_0000 + s < 0x1_0000
    ensures (a + s) % 0x1_0000 == a % 0x1_0000 + s && a + s < 0x1_0000_0000
  {
  }

  /** Loading the next byte behind the bits already there. */
  lemma LoadByte(src: seq<Byte>, p: nat, getbuf: nat, n: nat, i: nat)
    requires Holds(src, p, getbuf, n) && n <= 8 && i < 256 && i == BitsValue(src, p + n, 8)
    ensures Holds(src, p, Or(getbuf, Shl(i, 8 - n)), n + 8)
  {
    var v, s, u := BitsValue(src, p, n), Shl(i, 8 - n), BitsValue(src, p, n + 8);
    var k := HoldsSplit(src, p, getbuf, n);
    Powers(1);
    ShlBelow(i, 8, 8 - n);
    OrDisjoint(k, s, 16 - n);
    assert Shl(v, 16 - n) + s == Shl(u, 8 - n) by {
      BitsValueSplit(src, p, n, 8);
      ShlTwice(v, 8, 8 - n);
      ShlAdd(Shl(v, 8), i, 8 - n);
    }
    ShlBelow(u, n + 8, 8 - n);
    AddBelow(getbuf, s);
  }

  /** The 16 bits are the first `m` of them, then the others, then zeros. */
  lemma HoldsParts(src: seq<Byte>, p: nat, getbuf: nat, n: nat, m: nat)
    requires Holds(src, p, getbuf, n) && m <= n
    ensures var b := BitsValue(src, p + m, n - m);
            && getbuf % 0x1_0000 == Shl(BitsValue(src, p, m), 16 - m) + Shl(b, 16 - n)
            && Shl(b, 16 - n) < Shl(1, 16 - m)
            && Shl(b, 16 - (n - m)) < 0x1_0000
  {
    hide BitsValue, Shl, StreamBit;
    var a, b := BitsValue(src, p, m), BitsValue(src, p + m, n - m);
    BitsValueSplit(src, p, m, n - m);
    ShlAdd(Shl(a, n - m), b, 16 - n);
    ShlTwice(a, n - m, 16 - n);
    ShlBelow(b, n - m, 16 - n);
    ShlBelow(b, n - m, 16 - (n - m));
    Powers(1);
  }

  /** Shifting such a register left pushes the first `m` bits out of the low half. */
  lemma ShiftedOut(h: nat, a: nat, b: nat, n: nat, m: nat)
    requires m <= n <= 16
    ensures Shl(0x1_0000 * h + Shl(a, 16 - m) + Shl(b, 16 - n), m)
         == 0x1_0000 * (Shl(h, m) + a) + Shl(b, 16 - (n - m))
  {
    ShlAdd(0x1_0000 * h + Shl(a, 16 - m), Shl(b, 16 - n), m);
    ShlAdd(0x1_0000 * h, Shl(a, 16 - m), m);
    ShlTwice(b, 16 - n, m);
    ShlTwice(a, 16 - m, m);
    Powers(a);
    Powers(h);
    ShlTwice(h, 16, m);
    ShlTwice(h, m, 16);
    Powers(Shl(h, m));
  }

  /** Taking the top `m` of the 16 bits away. */
  lemma TakeTop(src: seq<Byte>, p: nat, getbuf: nat, n: nat, m: nat)
    requires Holds(src, p, getbuf, n) && m <= n
    ensures Shr(getbuf % 0x1_0000, 16 - m) == BitsValue(src, p, m)
  {
    hide BitsValue, Shl, Shr, StreamBit;
    HoldsParts(src, p, getbuf, n, m);
    ShrShl(BitsValue(src, p, m), Shl(BitsValue(src, p + m, n - m), 16 - n), 16 - m);
  }

  lemma TakeRest(src: seq<Byte>, p: nat, getbuf: nat, n: nat, m: nat)
    requires Holds(src, p, getbuf, n) && m <= n
    ensures Holds(src, p + m, Shl(getbuf, m) % 0x1_0000_0000, n - m)
  {
    var a, b, h := BitsValue(src, p, m), BitsValue(src, p + m, n - m), getbuf / 0x1_0000;
    HoldsParts(src, p, getbuf, n, m);
    assert getbuf == 0x1_0000 * h + Shl(a, 16 - m) + Shl(b, 16 - n);
    ShiftedOut(h, a, b, n, m);
    LowHalf(Shl(h, m) + a, Shl(b, 16 - (n - m)));
  }

  lemma LowHalf(k: nat, d: nat)
    requires d < 0x1_0000
    ensures (0x1_0000 * k + d) % 0x1_0000_0000 % 0x1_0000 == d
  {
    var q := (0x1_0000 * k + d) / 0x1_0000_0000;
    assert (0x1_0000 * k + d) % 0x1_0000_0000 == 0x1_0000 * (k - 0x1_0000 * q) + d;
  }
}
