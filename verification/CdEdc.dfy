/** The error detection code of a Mode 1 sector: a division of polynomials over GF(2). */
module CdEdc {
  import opened BitOps
  import opened CdGf

  type Word = r: nat | r < 0x1_0000_0000

  function EdcMask(r: nat): nat { if r % 2 == 1 then 0xD801_8001 else 0 }

  /** One step of the division, least significant bit first. */
  function EdcShift(r: nat): nat { Xor(r / 2, EdcMask(r)) }

  function EdcShifts(r: nat, n: nat): nat
    decreases n
  {
    if n == 0 then r else EdcShifts(EdcShift(r), n - 1)
  }

  /** Feed the lowest `n` bits of `x`, one at a time. */
  function EdcFeed(r: nat, x: nat, n: nat): nat
    decreases n
  {
    if n == 0 then r else EdcFeed(EdcShift(Xor(r, x % 2)), x / 2, n - 1)
  }

  /** The remainder after feeding a message bit by bit. */
  function EdcOf(msg: seq<Byte>): nat {
    if msg == [] then 0 else EdcFeed(EdcOf(msg[..|msg| - 1]), msg[|msg| - 1], 8)
  }

  // ---------- a byte at a time ----------

  lemma EdcShiftXor(a: nat, b: nat)
    ensures EdcShift(Xor(a, b)) == Xor(EdcShift(a), EdcShift(b))
  {
    hide Xor;
    XorStep(a, b);
    XorSwap(a / 2, EdcMask(a), b / 2, EdcMask(b));
    XorSelf(0xD801_8001);
    XorZero(0xD801_8001);
    XorZero(0);
  }

  lemma {:induction false} EdcShiftsXor(a: nat, b: nat, n: nat)
    ensures EdcShifts(Xor(a, b), n) == Xor(EdcShifts(a, n), EdcShifts(b, n))
    decreases n
  {
    hide Xor, EdcShift;
    if n == 0 {
    } else {
      EdcShiftXor(a, b);
      EdcShiftsXor(EdcShift(a), EdcShift(b), n - 1);
    }
  }

  /** Bits above the ones being shifted out just move down. */
  lemma {:induction false} EdcShiftsHigh(h: nat, n: nat)
    ensures EdcShifts(Shl(h, n), n) == h
  {
    if n == 0 {
    } else {
      XorZero(Shl(h, n - 1));
      EdcShiftsHigh(h, n - 1);
    }
  }

  /** Feeding bits one by one is shifting them in together. */
  lemma {:induction false} EdcFeedShifts(r: nat, x: nat, n: nat)
    requires x < Shl(1, n)
    ensures EdcFeed(r, x, n) == EdcShifts(Xor(r, x), n)
    decreases n
  {
    if n == 0 {
      XorZero(r);
    } else {
      EdcFeedShifts(EdcShift(Xor(r, x % 2)), x / 2, n - 1);
      ShiftInOne(r, x);
    }
  }

  lemma ShiftInOne(r: nat, x: nat)
    ensures EdcShift(Xor(r, x)) == Xor(EdcShift(Xor(r, x % 2)), x / 2)
  {
    hide Xor;
    LowBits(x / 2, 0, x % 2);
    XorZero(2 * (x / 2));
    XorZero(x / 2);
    XorComm(2 * (x / 2), x % 2);
    SplitLow(x);
    XorAssoc(r, x % 2, 2 * (x / 2));
    EdcShiftXor(Xor(r, x % 2), 2 * (x / 2));
  }

  lemma SplitLow(x: nat)
    ensures Xor(x % 2, 2 * (x / 2)) == x
  {
    XorStep(x % 2, 2 * (x / 2));
    XorZero(x / 2);
  }

  /** The table step: shift out a byte and fold in the entry it selects. */
  lemma EdcTableStep(r: nat, x: Byte)
    ensures EdcFeed(r, x, 8) == Xor(r / 256, EdcShifts(Xor(r, x) % 256, 8))
  {
    hide Xor, EdcShifts, EdcFeed, Shl;
    Powers(1);
    EdcFeedShifts(r, x, 8);
    var y := Xor(r, x);
    XorByte(r, x);
    XorZero(r / 256);
    Powers(y / 256);
    SplitByte(y);
    EdcShiftsXor(256 * (y / 256), y % 256, 8);
    EdcShiftsHigh(y / 256, 8);
  }

  lemma SplitByte(y: nat)
    ensures Xor(256 * (y / 256), y % 256) == y
  {
    hide Xor, Shl;
    Powers(1); Powers(y / 256);
    ShlZero(8);
    XorJoin(y / 256, 0, 0, y % 256, 8);
    XorZero(y / 256);
    XorZero(y % 256);
  }

  // ---------- the size of a remainder ----------

  lemma EdcShiftFits(r: Word)
    ensures EdcShift(r) < 0x1_0000_0000
  {
    hide Xor, Shl;
    Powers(1);
    ShlTwice(1, 16, 16);
    Powers(0x1_0000);
    XorBelow(r / 2, EdcMask(r), 32);
  }

  lemma {:induction false} EdcShiftsFits(r: Word, n: nat)
    ensures EdcShifts(r, n) < 0x1_0000_0000
    decreases n
  {
    hide EdcShift;
    if n == 0 {
    } else {
      EdcShiftFits(r);
      EdcShiftsFits(EdcShift(r), n - 1);
    }
  }

  lemma {:induction false} EdcOfFits(msg: seq<Byte>)
    ensures EdcOf(msg) < 0x1_0000_0000
  {
    if msg == [] {
    } else {
      hide Xor, EdcFeed, EdcShifts;
      var x, r := msg[|msg| - 1], EdcOf(msg[..|msg| - 1]);
      EdcOfFits(msg[..|msg| - 1]);
      Powers(1);
      ShlTwice(1, 16, 16);
      Powers(0x1_0000);
      XorBelow(r, x, 32);
      EdcFeedShifts(r, x, 8);
      EdcShiftsFits(Xor(r, x), 8);
    }
  }

  // ---------- the division ----------

  /** A message as a polynomial: bit i of byte j is the coefficient number 8*j + i. */
  function Poly(msg: seq<Byte>): nat {
    if msg == [] then 0 else Poly(msg[..|msg| - 1]) + Shl(msg[|msg| - 1], 8 * (|msg| - 1))
  }

  /** The generator, (x^16 + x^15 + x^2 + 1)(x^16 + x^2 + x + 1), coefficients in the order in
      which the bits of a sector are read: the bit of weight 1 is x^32. */
  const GENERATOR: nat := 0x1_B003_0003

  lemma GeneratorFactors()
    ensures Clmul(0x1_4003, 0x1_C001) == GENERATOR
  {
    hide Xor, Shl, Clmul;
    var b: nat := 0x1_C001;
    ClmulThree(b);
    Powers(1); Powers(b); Shl16(1); Shl16(b);
    ClmulTop(3, 1, b, 14);
    ClmulTop(0x4003, 1, b, 16);
    Sums();
  }

  lemma ClmulThree(b: nat)
    ensures Clmul(3, b) == Xor(b, 2 * b)
  {
    assert Clmul(0, b) == 0;
    assert Clmul(1, b) == b;
  }

  lemma Sums()
    ensures Xor(0x1_C001, 0x3_8002) == 0x2_4003
    ensures Xor(0x2_4003, 0x7000_4000) == 0x7002_0003
    ensures Xor(0x7002_0003, 0x1_C001_0000) == GENERATOR
  {
    hide Xor, Shl;
    SmallSums();
    // above bit 14: 7 and 14, then 9 and 0x1C001; above bit 16: 0x7002 and 0x1C001
    Shl16(1); Shl16(7); Shl16(14); Shl16(9); Shl16(0x1_C001); Shl16(0x1_C008);
    XorJoin(7, 1, 14, 2, 14);
    XorJoin(9, 3, 0x1_C001, 0, 14);
    Powers(1); Powers(0x7002); Powers(0x1_C001); Powers(0x1_B003);
    XorJoin(0x7002, 3, 0x1_C001, 0, 16);
    XorZero(3);
    Shl12(0); Shl12(1); Shl12(7); Shl12(0x1C); Shl12(0x1B);
    XorJoin(0, 9, 0x1C, 1, 12);
    XorZero(0x1C);
    XorJoin(7, 2, 0x1C, 1, 12);
  }

  lemma SmallSums()
    ensures Xor(1, 2) == 3 && Xor(2, 1) == 3 && Xor(7, 14) == 9 && Xor(9, 1) == 8 && Xor(7, 0x1C) == 0x1B
  {
    assert Xor(3, 7) == 4 && Xor(4, 0) == 4;
    assert Xor(1, 7) == 6;
    assert Xor(3, 14) == 13;
  }

  lemma Shl12(v: nat)
    ensures Shl(v, 12) == 0x1000 * v
  {
    Shl16(v);
    assert Shl(v, 14) == 2 * Shl(v, 13) == 4 * Shl(v, 12);
  }

  lemma Shl16(v: nat)
    ensures Shl(v, 14) == 0x4000 * v
  {
    Powers(v);
    assert Shl(v, 16) == 2 * Shl(v, 15) == 4 * Shl(v, 14);
  }

  lemma {:induction false} ShlXor(a: nat, b: nat, n: nat)
    ensures Shl(Xor(a, b), n) == Xor(Shl(a, n), Shl(b, n))
  {
    hide Xor;
    if n == 0 {
    } else {
      ShlXor(a, b, n - 1);
      XorDouble(Shl(a, n - 1), Shl(b, n - 1));
    }
  }

  lemma DisjointXor(m: nat, b: nat, k: nat)
    requires m < Shl(1, k)
    ensures m + Shl(b, k) == Xor(m, Shl(b, k))
  {
    hide Xor, Shl;
    ShlZero(k);
    XorJoin(0, m, b, 0, k);
    XorZero(b);
    XorZero(m);
  }

  /** One step of the register, doubled, adds the generator to clear the low bit. */
  lemma ShiftIsReduction(y: nat)
    ensures 2 * EdcShift(y) == Xor(y, if y % 2 == 1 then GENERATOR else 0)
  {
    hide Xor;
    var h := y / 2;
    if y % 2 == 1 {
      XorStep(2 * h + 1, GENERATOR);
    } else {
      XorZero(h);
      XorZero(y);
    }
  }

  /** The dividend so far, and the remainder moved up behind it, differ by a multiple of the generator. */
  ghost predicate Divides(q: nat, m: nat, r: nat, k: nat) {
    q < Shl(1, k) && m < Shl(1, k) && Clmul(q, GENERATOR) == Xor(m, Shl(r, k))
  }

  lemma DivideBit(q: nat, m: nat, r: nat, k: nat, b: nat) returns (q': nat)
    requires Divides(q, m, r, k) && b <= 1
    ensures Divides(q', m + Shl(b, k), EdcShift(Xor(r, b)), k + 1)
  {
    hide Xor, Shl, Clmul, EdcShift;
    var y := Xor(r, b);
    var t := y % 2;
    var g := if t == 1 then GENERATOR else 0;
    q' := q + Shl(t, k);
    ClmulTop(q, t, GENERATOR, k);
    ShiftIsReduction(y);
    DisjointXor(m, b, k);
    ShlUnfold(EdcShift(y), k);
    ShlXor(y, g, k);
    ShlXor(r, b, k);
    DivideAlgebra(m, Shl(r, k), Shl(b, k), Shl(g, k));
    ShlUnfold(1, k);
    ShlBit(t, k);
    ShlBit(b, k);
  }

  lemma ShlUnfold(v: nat, k: nat)
    ensures Shl(v, k + 1) == 2 * Shl(v, k) == Shl(2 * v, k)
  {
    ShlAdd(v, v, k);
  }

  lemma ShlBit(b: nat, k: nat)
    requires b <= 1
    ensures Shl(b, k) <= Shl(1, k)
  {
    ShlZero(k);
  }

  lemma DivideAlgebra(m: nat, r: nat, b: nat, g: nat)
    ensures Xor(Xor(m, r), g) == Xor(Xor(m, b), Xor(Xor(r, b), g))
  {
    hide Xor;
    XorAssoc(Xor(m, b), Xor(r, b), g);
    XorSwap(m, b, r, b);
    XorSelf(b);
    XorZero(Xor(m, r));
  }

  lemma {:induction false} DivideBits(q: nat, m: nat, r: nat, k: nat, x: nat, n: nat) returns (q': nat)
    requires Divides(q, m, r, k) && x < Shl(1, n)
    ensures Divides(q', m + Shl(x, k), EdcFeed(r, x, n), k + n)
    decreases n
  {
    if n == 0 {
      ShlZero(k);
      q' := q;
    } else {
      hide Xor, Clmul, EdcShift, Divides;
      var q1 := DivideBit(q, m, r, k, x % 2);
      q' := DivideBits(q1, m + Shl(x % 2, k), EdcShift(Xor(r, x % 2)), k + 1, x / 2, n - 1);
      ShlUnfold(x / 2, k);
      ShlAdd(x % 2, 2 * (x / 2), k);
    }
  }

  lemma DividesNothing()
    ensures Divides(0, 0, 0, 0)
  {
    XorZero(0);
  }

  /** Reading a whole message divides it: the remainder is what is left of the message as a
      polynomial after subtracting a multiple of the generator. */
  lemma {:induction false} EdcDivides(msg: seq<Byte>) returns (q: nat)
    ensures Divides(q, Poly(msg), EdcOf(msg), 8 * |msg|)
  {
    hide Xor, Clmul, Divides, Shl, EdcFeed;
    if msg == [] {
      q := 0;
      DividesNothing();
    } else {
      var n := |msg| - 1;
      q := EdcDivides(msg[..n]);
      Powers(1);
      assert 8 * n + 8 == 8 * |msg|;
      q := DivideBits(q, Poly(msg[..n]), EdcOf(msg[..n]), 8 * n, msg[n], 8);
    }
  }

  // ---------- the stored code ----------

  function LittleEndian(r: Word): (b: seq<Byte>)
    ensures |b| == 4
  {
    [r % 256, r / 0x100 % 256, r / 0x1_0000 % 256, r / 0x100_0000 % 256]
  }

  lemma EdcSnoc(msg: seq<Byte>, x: Byte)
    ensures EdcOf(msg + [x]) == EdcFeed(EdcOf(msg), x, 8)
  {
    var v := msg + [x];
    assert v[..|v| - 1] == msg;
  }

  /** Feeding the low byte of the remainder shifts it out. */
  lemma FeedOwnByte(r: nat)
    ensures EdcFeed(r, r % 256, 8) == r / 256
  {
    hide Xor, EdcShifts, EdcFeed, Shl;
    Powers(1);
    EdcFeedShifts(r, r % 256, 8);
    SplitByte(r);
    XorCancel(256 * (r / 256), r % 256);
    Powers(r / 256);
    EdcShiftsHigh(r / 256, 8);
  }

  /** A message followed by its code, low byte first, leaves no remainder. */
  lemma EdcResidue(msg: seq<Byte>, r: Word)
    requires r == EdcOf(msg)
    ensures EdcOf(msg + LittleEndian(r)) == 0
  {
    hide EdcOf, EdcFeed;
    var b := LittleEndian(r);
    var m1 := msg + [b[0]];
    var m2 := m1 + [b[1]];
    var m3 := m2 + [b[2]];
    EdcSnoc(msg, b[0]); EdcSnoc(m1, b[1]); EdcSnoc(m2, b[2]); EdcSnoc(m3, b[3]);
    FeedOwnByte(r); FeedOwnByte(r / 0x100); FeedOwnByte(r / 0x1_0000); FeedOwnByte(r / 0x100_0000);
    assert msg + b == m3 + [b[3]];
  }

  /** Such a message, as a polynomial, is a multiple of the generator. */
  lemma ResidueMultiple(msg: seq<Byte>) returns (q: nat)
    requires EdcOf(msg) == 0
    ensures Poly(msg) == Clmul(q, GENERATOR)
  {
    hide EdcOf, Poly, Clmul, Xor, Shl;
    q := EdcDivides(msg);
    ShlZero(8 * |msg|);
    XorZero(Poly(msg));
  }

  // ---------- only one code fits ----------

  /** The register forgets nothing: only zero shifts to zero. */
  lemma EdcShiftKernel(r: Word)
    requires EdcShift(r) == 0
    ensures r == 0
  {
    hide Xor;
    XorEqual(r / 2, EdcMask(r));
  }

  lemma {:induction false} EdcShiftsKernel(r: Word, n: nat)
    requires EdcShifts(r, n) == 0
    ensures r == 0
    decreases n
  {
    hide EdcShift;
    if n == 0 {
    } else {
      EdcShiftFits(r);
      EdcShiftsKernel(EdcShift(r), n - 1);
      EdcShiftKernel(r);
    }
  }

  lemma {:induction false} FeedSplit(r: nat, x: nat, y: nat, k: nat, n: nat)
    requires x < Shl(1, k)
    ensures EdcFeed(r, x + Shl(y, k), k + n) == EdcFeed(EdcFeed(r, x, k), y, n)
    decreases k
  {
    hide Xor, EdcShift;
    if k == 0 {
    } else {
      FeedSplit(EdcShift(Xor(r, x % 2)), x / 2, y, k - 1, n);
    }
  }

  function WordOf(b: seq<Byte>): (v: Word)
    requires |b| == 4
  {
    var b0: nat, b1: nat, b2: nat, b3: nat := b[0], b[1], b[2], b[3];
    b0 + 0x100 * b1 + 0x1_0000 * b2 + 0x100_0000 * b3
  }

  lemma WordOfLittleEndian(b: seq<Byte>)
    requires |b| == 4
    ensures LittleEndian(WordOf(b)) == b
  {
    var b0: nat, b1: nat, b2: nat, b3: nat := b[0], b[1], b[2], b[3];
    var v: nat := WordOf(b);
    assert v / 0x100 == b1 + 0x100 * b2 + 0x1_0000 * b3;
    assert v / 0x1_0000 == b2 + 0x100 * b3;
    assert v / 0x100_0000 == b3;
  }

  /** Four bytes fed in turn are one 32-bit word fed at once. */
  lemma FeedWord(msg: seq<Byte>, b: seq<Byte>)
    requires |b| == 4
    ensures EdcOf(msg + b) == EdcFeed(EdcOf(msg), WordOf(b), 32)
  {
    hide EdcOf, EdcFeed, Shl;
    var r := EdcOf(msg);
    var m1 := msg + [b[0]];
    var m2 := m1 + [b[1]];
    var m3 := m2 + [b[2]];
    EdcSnoc(msg, b[0]); EdcSnoc(m1, b[1]); EdcSnoc(m2, b[2]); EdcSnoc(m3, b[3]);
    assert msg + b == m3 + [b[3]];
    var b1: nat, b2: nat, b3: nat := b[1], b[2], b[3];
    var v2 := b2 + 0x100 * b3;
    var v1 := b1 + 0x100 * v2;
    Powers(1); Powers(b3); Powers(v2); Powers(v1);
    FeedSplit(EdcOf(m2), b2, b3, 8, 8);
    FeedSplit(EdcOf(m1), b1, v2, 8, 16);
    FeedSplit(r, b[0], v1, 8, 24);
  }

  /** If four bytes clear the remainder, they are the remainder. */
  lemma EdcUnique(msg: seq<Byte>, b: seq<Byte>)
    requires |b| == 4 && EdcOf(msg + b) == 0
    ensures EdcOf(msg) < 0x1_0000_0000 && b == LittleEndian(EdcOf(msg))
  {
    hide EdcOf, EdcFeed, EdcShifts, Xor, Shl, WordOf, LittleEndian;
    var r := EdcOf(msg);
    EdcOfFits(msg);
    var v := WordOf(b);
    WordOfLittleEndian(b);
    FeedWord(msg, b);
    WordSize();
    EdcFeedShifts(r, v, 32);
    XorBelow(r, v, 32);
    EdcShiftsKernel(Xor(r, v), 32);
    XorEqual(r, v);
  }

  lemma WordSize()
    ensures Shl(1, 32) == 0x1_0000_0000
  {
    hide Shl;
    Powers(1);
    ShlTwice(1, 16, 16);
    Powers(0x1_0000);
  }
}
