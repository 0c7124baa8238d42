/** The bytes of a formatted track written out, and the CRC bit by bit. */
module FloppyBytes {
  import opened BitOps
  import opened FloppyCrc
  import opened FloppyLayout
  import opened FloppyDisk

  // ---------- the register ----------

  /** A number with bit `n` turned round. */
  function Turned(v: nat, n: nat): int {
    if Shr(v, n) % 2 == 0 then v + Shl(1, n) else v - Shl(1, n)
  }

  lemma {:induction false} XorBit(v: nat, n: nat)
    ensures Xor(v, Shl(1, n)) == Turned(v, n)
  {
    hide Xor;
    PowerPositive(n);
    XorStep(v, Shl(1, n));
    if n == 0 {
      XorZero(v / 2);
    } else {
      XorBit(v / 2, n - 1);
      ShrHalf(v, n);
    }
  }

  /** A one that falls out at the top turns round bits 0, 5 and 12: the polynomial is
      x^16 + x^12 + x^5 + 1. */
  lemma StepIs(c: Word)
    ensures Step(c) == if c < 0x8000 then 2 * c else Xor(Xor(Xor(2 * c - 0x1_0000, Shl(1, 0)), Shl(1, 5)), Shl(1, 12))
  {
    hide Xor, Shl;
    if c >= 0x8000 {
      var v := 2 * c - 0x1_0000;
      Weights();
      XorAssoc(v, 1, 0x20);
      XorAssoc(v, 0x21, 0x1000);
    }
  }

  lemma Weights()
    ensures Shl(1, 0) == 1 && Shl(1, 5) == 0x20 && Shl(1, 12) == 0x1000
    ensures Xor(1, 0x20) == 0x21 && Xor(0x21, 0x1000) == 0x1021
  {
    hide Xor;
    assert Shl(1, 2) == 4;
    assert Shl(1, 4) == 0x10;
    assert Shl(1, 6) == 0x40;
    assert Shl(1, 8) == 0x100;
    assert Shl(1, 10) == 0x400;
    assert Shr(1, 2) == 0;
    assert Shr(1, 4) == 0;
    XorBit(1, 5);
    assert Shr(0x21, 2) == 8;
    assert Shr(0x21, 4) == 2;
    assert Shr(0x21, 6) == 0;
    assert Shr(0x21, 8) == 0;
    assert Shr(0x21, 10) == 0;
    XorBit(0x21, 12);
  }

  /** In numbers. */
  function Next(c: Word): int {
    if c < 0x8000 then 2 * c
    else
      2 * c - 0xFFFF + (if (2 * c - 0x1_0000) / 0x20 % 2 == 0 then 0x20 else -0x20)
                     + (if (2 * c - 0x1_0000) / 0x1000 % 2 == 0 then 0x1000 else -0x1000)
  }

  lemma StepNumber(c: Word)
    ensures Step(c) == Next(c)
  {
    hide Xor, Shl, Shr;
    if c < 0x8000 {
      StepIs(c);
    } else {
      var v := 2 * c - 0x1_0000;
      StepIs(c);
      Weights();
      XorBit(v, 0);
      ShrFive(v);
      XorBit(v + 1, 5);
      ShrFive(v + 1);
      var w: nat := Xor(v + 1, 0x20);
      XorBit(w, 12);
      ShrTwelve(w);
      TopKept(v);
    }
  }

  lemma ShrFive(v: nat)
    ensures Shr(v, 0) == v && Shr(v, 5) == v / 0x20
  {
    assert Shr(v, 1) == v / 2;
    assert Shr(v, 2) == v / 4;
    assert Shr(v, 3) == v / 8;
    assert Shr(v, 4) == v / 16;
  }

  lemma ShrTwelve(v: nat)
    ensures Shr(v, 12) == v / 0x1000
  {
    ShrFive(v);
    assert Shr(v, 6) == v / 0x40;
    assert Shr(v, 7) == v / 0x80;
    assert Shr(v, 8) == v / 0x100;
    assert Shr(v, 9) == v / 0x200;
    assert Shr(v, 10) == v / 0x400;
    assert Shr(v, 11) == v / 0x800;
  }

  lemma TopKept(v: nat)
    requires v % 2 == 0
    ensures (v + 1) / 0x20 == v / 0x20
    ensures v / 0x20 % 2 == 0 ==> (v + 0x21) / 0x1000 == v / 0x1000
    ensures v / 0x20 % 2 == 1 ==> (v - 0x1F) / 0x1000 == v / 0x1000
  {
    var a, r := v / 0x20, v % 0x20;
    assert r < 0x1F;
    Quotients(a, r);
    Quotients(a, r + 1);
    Even(a);
    if a % 2 == 0 { Quotients(a + 1, r + 1); } else { Quotients(a - 1, r + 1); }
  }

  lemma Even(a: nat)
    ensures a % 2 == 0 ==> (a + 1) / 0x80 == a / 0x80
    ensures a % 2 == 1 ==> (a - 1) / 0x80 == a / 0x80
  {
    var b := a / 0x80;
    var r := a - 0x80 * b;
    SameEighty(b, r);
    if a % 2 == 0 { SameEighty(b, r + 1); } else { SameEighty(b, r - 1); }
  }

  lemma SameEighty(b: nat, r: nat)
    requires r < 0x80
    ensures (0x80 * b + r) / 0x80 == b
  {
  }

  lemma Quotients(a: nat, r: nat)
    requires r < 0x20
    ensures (0x20 * a + r) / 0x20 == a && (0x20 * a + r) / 0x1000 == a / 0x80
  {
  }

  /** A byte goes into the upper half of the register. */
  lemma AddedIs(c: Word, b: Byte)
    ensures Added(c, b) == 0x100 * Xor(c / 0x100, b) + c % 0x100
  {
    hide Xor;
    XorByte(c, 0x100 * b);
    XorZero(c % 0x100);
  }

  /** The register after each of eight steps. */
  predicate Registers(s: seq<Word>) {
    |s| == 9 && forall i :: 0 <= i < 8 ==> Step(s[i]) == s[i + 1]
  }

  lemma {:induction false} StepsAre(s: seq<Word>, n: nat)
    requires Registers(s) && n <= 8
    ensures Steps(s[0], n) == s[n]
  {
    hide Step;
    if n == 0 {
    } else {
      StepsAre(s, n - 1);
    }
  }

  const MARK1: seq<Word> := [0x5EFF, 0xBDFE, 0x6BDD, 0xD7BA, 0xBF55, 0x6E8B, 0xDD16, 0xAA0D, 0x443B]
  const MARK2: seq<Word> := [0xE53B, 0xDA57, 0xA48F, 0x593F, 0xB27E, 0x74DD, 0xE9BA, 0xC355, 0x968B]
  const MARK3: seq<Word> := [0x378B, 0x6F16, 0xDE2C, 0xAC79, 0x48D3, 0x91A6, 0x336D, 0x66DA, 0xCDB4]

  lemma Mark1Steps()
    ensures Registers(MARK1)
  {
    hide Step, Next;
    Mark1Numbers();
    forall i | 0 <= i < 8 ensures Step(MARK1[i]) == MARK1[i + 1] { StepNumber(MARK1[i]); }
  }

  lemma Mark1Numbers()
    ensures Next(0x5EFF) == 0xBDFE && Next(0xBDFE) == 0x6BDD && Next(0x6BDD) == 0xD7BA && Next(0xD7BA) == 0xBF55
    ensures Next(0xBF55) == 0x6E8B && Next(0x6E8B) == 0xDD16 && Next(0xDD16) == 0xAA0D && Next(0xAA0D) == 0x443B
  {
  }

  lemma Mark2Steps()
    ensures Registers(MARK2)
  {
    hide Step, Next;
    Mark2Numbers();
    forall i | 0 <= i < 8 ensures Step(MARK2[i]) == MARK2[i + 1] { StepNumber(MARK2[i]); }
  }

  lemma Mark2Numbers()
    ensures Next(0xE53B) == 0xDA57 && Next(0xDA57) == 0xA48F && Next(0xA48F) == 0x593F && Next(0x593F) == 0xB27E
    ensures Next(0xB27E) == 0x74DD && Next(0x74DD) == 0xE9BA && Next(0xE9BA) == 0xC355 && Next(0xC355) == 0x968B
  {
  }

  lemma Mark3Steps()
    ensures Registers(MARK3)
  {
    hide Step, Next;
    Mark3Numbers();
    forall i | 0 <= i < 8 ensures Step(MARK3[i]) == MARK3[i + 1] { StepNumber(MARK3[i]); }
  }

  lemma Mark3Numbers()
    ensures Next(0x378B) == 0x6F16 && Next(0x6F16) == 0xDE2C && Next(0xDE2C) == 0xAC79 && Next(0xAC79) == 0x48D3
    ensures Next(0x48D3) == 0x91A6 && Next(0x91A6) == 0x336D && Next(0x336D) == 0x66DA && Next(0x66DA) == 0xCDB4
  {
  }

  /** What every address and data field begins with leaves the register that floppy controllers are
      known to have there. */
  lemma MarkCrc()
    ensures Crc([0xA1, 0xA1, 0xA1]) == 0xCDB4
  {
    hide Step, Steps, Xor, Added;
    Mark1Steps();
    Mark2Steps();
    Mark3Steps();
    StepsAre(MARK1, 8);
    StepsAre(MARK2, 8);
    StepsAre(MARK3, 8);
    AddedIs(0xFFFF, 0xA1);
    AddedIs(0x443B, 0xA1);
    AddedIs(0x968B, 0xA1);
    UpperHalves();
    assert CrcFrom(0xFFFF, []) == 0xFFFF;
    assert [0xA1][..0] == [] && [0xA1, 0xA1][..1] == [0xA1] && [0xA1, 0xA1, 0xA1][..2] == [0xA1, 0xA1];
    assert CrcFrom(0xFFFF, [0xA1]) == CrcByte(0xFFFF, 0xA1) == 0x443B;
    assert CrcFrom(0xFFFF, [0xA1, 0xA1]) == CrcByte(0x443B, 0xA1) == 0x968B;
  }

  lemma UpperHalves()
    ensures Xor(0xFF, 0xA1) == 0x5E && Xor(0x44, 0xA1) == 0xE5 && Xor(0x96, 0xA1) == 0x37
  {
    hide Xor;
    Nibbles();
    XorJoin(0xF, 0xF, 0xA, 1, 4);
    XorJoin(4, 4, 0xA, 1, 4);
    XorJoin(9, 6, 0xA, 1, 4);
    assert Shl(1, 2) == 4 && Shl(0xF, 2) == 0x3C && Shl(0xA, 2) == 0x28 && Shl(4, 2) == 0x10 && Shl(9, 2) == 0x24;
    assert Shl(5, 2) == 0x14 && Shl(0xE, 2) == 0x38 && Shl(3, 2) == 0xC;
    assert Shl(1, 4) == 0x10 && Shl(0xF, 4) == 0xF0 && Shl(0xA, 4) == 0xA0 && Shl(4, 4) == 0x40 && Shl(9, 4) == 0x90;
    assert Shl(5, 4) == 0x50 && Shl(0xE, 4) == 0xE0 && Shl(3, 4) == 0x30;
  }

  lemma Nibbles()
    ensures Xor(0xF, 0xA) == 5 && Xor(4, 0xA) == 0xE && Xor(9, 0xA) == 3
    ensures Xor(0xF, 1) == 0xE && Xor(4, 1) == 5 && Xor(6, 1) == 7
  {
    assert Xor(1, 1) == 0 && Xor(0, 1) == 1;
    assert Xor(3, 2) == 1 && Xor(1, 2) == 3 && Xor(2, 2) == 0;
    assert Xor(7, 5) == 2 && Xor(2, 5) == 7 && Xor(4, 5) == 1;
    assert Xor(7, 0) == 7 && Xor(2, 0) == 2 && Xor(3, 0) == 3;
  }

  // ---------- a formatted track ----------

  function Times(n: nat, b: Byte): (s: seq<Byte>)
    ensures |s| == n && forall i :: 0 <= i < n ==> s[i] == b
  {
    seq(n, _ => b)
  }

  /** The CRC of some bytes, its upper byte first. */
  function CrcBytes(s: seq<Byte>): seq<Byte> { [Crc(s) / 0x100, Crc(s) % 0x100] }

  /** A sector: gap, zeros, marks, address field; gap, zeros, marks, data field; gap. */
  function Laid(cyl: Byte, k: nat, page: Page): (s: seq<Byte>)
    requires k < 16
    ensures |s| == 388
  {
    var address, data := [0xA1, 0xA1, 0xA1, 0xFE, cyl, 0, k + 1, 1], [0xA1, 0xA1, 0xA1, 0xFB] + page;
    Times(10, 0x4E) + Times(12, 0) + address + CrcBytes(address)
    + Times(22, 0x4E) + Times(12, 0) + data + CrcBytes(data) + Times(60, 0x4E)
  }

  /** Sixteen of them make a formatted track, with one more stretch of gap at the end; the clock is
      missing in the three marks before each field and nowhere else. */
  lemma TrackIs(cyl: Byte, pages: Pages, i: nat)
    requires i < 6250
    ensures i < 16 * 388 ==> TrackByte(cyl, pages, i) == Laid(cyl, i / 388, pages[i / 388])[i % 388]
    ensures i >= 16 * 388 ==> TrackByte(cyl, pages, i) == 0x4E
    ensures ClockByte(i) != 0 <==> i < 16 * 388 && i % 388 in {22, 23, 24, 66, 67, 68}
  {
    hide Crc;
    if i < 16 * 388 { SectorIs(cyl, i / 388, pages[i / 388], i % 388); }
  }

  lemma SectorIs(cyl: Byte, k: nat, page: Page, j: nat)
    requires k < 16 && j < 388
    ensures SectorByte(cyl, k, page, j) == Laid(cyl, k, page)[j]
  {
    hide Crc;
  }

  // ---------- a new disk ----------

  /** Every byte of a disk just formatted: zeros, but for the information sector, the ninth of the
      first track. */
  lemma NewDiskByte(n: nat, t: nat, k: nat, b: nat)
    requires t < n && k < 16 && b < 256
    ensures NewImage(n)[t][k][b] == if t == 0 && k == 8 then NewInfo(FreeOf(n), b) else 0
    ensures 1 <= n <= 4096 ==> FreeOf(n) == 16 * n - 16
  {
    hide InfoPage;
    if t / 2 == 0 && t % 2 == 0 { assert t == 0; }
    InfoIs(FreeOf(n), b);
  }

  /** The first free sector is the first of the second track; the disk's type is 22, the identifier
      16, and the name stands near the end. */
  function NewInfo(free: nat, b: nat): Byte
    requires free < 0x1_0000 && b < 256
  {
    if b == 0xE2 then 1 else if b == 0xE3 then 22 else if b == 0xE5 then free % 0x100
    else if b == 0xE6 then free / 0x100 else if b == 0xE7 then 16
    else if 0xF5 <= b < 0xFD then Codes("MiSTer  ")[b - 0xF5] else 0
  }

  lemma InfoIs(free: nat, b: nat)
    requires free < 0x1_0000 && b < 256
    ensures InfoPage(free)[b] == NewInfo(free, b)
  {
    assert Codes("MiSTer  ") == NAME;
  }
}
