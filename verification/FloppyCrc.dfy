/** The 16-bit CRC of floppy tracks, and what it detects. */
module FloppyCrc {
  import opened BitOps

  type Word = x: nat | x < 0x1_0000

  // ---------- the register ----------

  /** One bit: shift left in sixteen bits, and reduce by the polynomial if a one fell out. */
  function Step(c: Word): (r: Word) {
    if c < 0x8000 then 2 * c
    else
      WordShl();
      XorBelow(2 * c - 0x1_0000, 0x1021, 16);
      Xor(2 * c - 0x1_0000, 0x1021)
  }

  function Steps(c: Word, n: nat): Word {
    if n == 0 then c else Step(Steps(c, n - 1))
  }

  /** A byte is added into the upper half of the register. */
  function Added(c: Word, b: Byte): Word {
    WordShl();
    XorBelow(c, 0x100 * b, 16);
    Xor(c, 0x100 * b)
  }

  function CrcByte(c: Word, b: Byte): Word {
    Steps(Added(c, b), 8)
  }

  function CrcFrom(c: Word, s: seq<Byte>): Word {
    if s == [] then c else CrcByte(CrcFrom(c, s[..|s| - 1]), s[|s| - 1])
  }

  function Crc(s: seq<Byte>): Word {
    CrcFrom(0xFFFF, s)
  }

  lemma WordShl()
    ensures Shl(1, 16) == 0x1_0000
  {
    Powers(1);
  }

  // ---------- the loops ----------

  /** `MakeVGCRC`, on `length` bytes from `from`. */
  method MakeCrc(a: array<Byte>, from: nat, length: nat) returns (crc: Word)
    requires from + length <= a.Length
    ensures crc == Crc(a[from..from + length])
  {
    crc := CrcLoop(a, from, length, 0xFFFF);
  }

  method CrcLoop(a: array<Byte>, from: nat, length: nat, start: Word) returns (crc: Word)
    requires from + length <= a.Length
    ensures crc == CrcFrom(start, a[from..from + length])
  {
    hide Step, Added;
    crc := start;
    for i := 0 to length
      invariant crc == CrcFrom(start, a[from..from + i])
    {
      crc := Added(crc, a[from + i]);
      ghost var c := crc;
      for j := 0 to 8
        invariant crc == Steps(c, j)
      {
        crc := Step(crc);
      }
      assert a[from..from + i + 1][..i] == a[from..from + i];
    }
  }

  // ---------- what it detects ----------

  lemma {:induction false} CrcAppend(c: Word, s: seq<Byte>, t: seq<Byte>)
    ensures CrcFrom(c, s + t) == CrcFrom(CrcFrom(c, s), t)
    decreases |t|
  {
    hide CrcByte;
    if t == [] {
      assert s + t == s;
    } else {
      CrcAppend(c, s, t[..|t| - 1]);
      assert (s + t)[..|s + t| - 1] == s + t[..|t| - 1];
    }
  }

  lemma StepInjective(a: Word, b: Word)
    requires Step(a) == Step(b)
    ensures a == b
  {
    hide Xor;
    if a >= 0x8000 { XorStep(2 * a - 0x1_0000, 0x1021); }
    if b >= 0x8000 { XorStep(2 * b - 0x1_0000, 0x1021); }
    if a >= 0x8000 && b >= 0x8000 {
      XorCancel(2 * a - 0x1_0000, 0x1021);
      XorCancel(2 * b - 0x1_0000, 0x1021);
    }
  }

  lemma {:induction false} StepsInjective(a: Word, b: Word, n: nat)
    requires Steps(a, n) == Steps(b, n)
    ensures a == b
  {
    hide Step;
    if n == 0 {
    } else {
      StepInjective(Steps(a, n - 1), Steps(b, n - 1));
      StepsInjective(a, b, n - 1);
    }
  }

  /** Neither the register nor the byte can differ unseen. */
  lemma ByteInjective(c: Word, d: Word, x: Byte, y: Byte)
    requires CrcByte(c, x) == CrcByte(d, y)
    ensures c == d <==> x == y
  {
    hide Xor;
    StepsInjective(Added(c, x), Added(d, y), 8);
    XorCancel(c, 0x100 * x);
    XorCancel(d, 0x100 * y);
    XorCancel(c, 0x100 * y);
  }

  lemma {:induction false} FromInjective(c: Word, d: Word, s: seq<Byte>)
    requires CrcFrom(c, s) == CrcFrom(d, s)
    ensures c == d
  {
    hide CrcByte;
    if s == [] {
    } else {
      var r := s[..|s| - 1];
      ByteInjective(CrcFrom(c, r), CrcFrom(d, r), s[|s| - 1], s[|s| - 1]);
      FromInjective(c, d, r);
    }
  }

  /** Changing any one byte changes the CRC. */
  lemma ChangeDetected(s: seq<Byte>, i: nat, x: Byte)
    requires i < |s| && x != s[i]
    ensures Crc(s[i := x]) != Crc(s)
  {
    hide CrcByte;
    var a, b := s[..i], s[i + 1..];
    assert s == a + [s[i]] + b && s[i := x] == a + [x] + b;
    CrcAppend(0xFFFF, a + [s[i]], b);
    CrcAppend(0xFFFF, a + [x], b);
    CrcAppend(0xFFFF, a, [s[i]]);
    CrcAppend(0xFFFF, a, [x]);
    var c := Crc(a);
    OneByte(c, x);
    OneByte(c, s[i]);
    if Crc(s[i := x]) == Crc(s) {
      FromInjective(CrcByte(c, x), CrcByte(c, s[i]), b);
      ByteInjective(c, c, x, s[i]);
      assert false;
    }
  }

  lemma OneByte(c: Word, x: Byte)
    ensures CrcFrom(c, [x]) == CrcByte(c, x)
  {
    hide CrcByte;
    assert [x][..0] == [];
  }

  /** What a controller checks: running the register over the stored CRC as well leaves zero, and
      no other two bytes do. */
  lemma Residue(s: seq<Byte>, hi: Byte, lo: Byte)
    ensures Crc(s + [hi, lo]) == 0 <==> hi == Crc(s) / 0x100 && lo == Crc(s) % 0x100
  {
    hide CrcByte;
    var c := Crc(s);
    CrcAppend(0xFFFF, s, [hi, lo]);
    CrcAppend(c, [hi], [lo]);
    assert [hi] + [lo] == [hi, lo];
    OneByte(c, hi);
    OneByte(CrcByte(c, hi), lo);
    Cancels(c);
    if Crc(s + [hi, lo]) == 0 {
      TwoBytes(c, hi, lo);
    }
  }

  lemma Cancels(c: Word)
    ensures CrcByte(CrcByte(c, c / 0x100), c % 0x100) == 0
  {
    hide Xor, Step, Steps;
    var low := c % 0x100;
    XorByte(c, 0x100 * (c / 0x100));
    XorSelf(c / 0x100);
    XorZero(low);
    assert Added(c, c / 0x100) == low;
    Eight(low);
    XorSelf(0x100 * low);
    Eight(0);
  }

  lemma Eight(low: Byte)
    ensures Steps(low, 8) == 0x100 * low
  {
    hide Xor;
    assert Steps(low, 1) == 2 * low;
    assert Steps(low, 2) == 4 * low;
    assert Steps(low, 3) == 8 * low;
    assert Steps(low, 4) == 0x10 * low;
    assert Steps(low, 5) == 0x20 * low;
    assert Steps(low, 6) == 0x40 * low;
    assert Steps(low, 7) == 0x80 * low;
  }

  lemma TwoBytes(c: Word, hi: Byte, lo: Byte)
    requires CrcByte(CrcByte(c, hi), lo) == 0
    ensures hi == c / 0x100 && lo == c % 0x100
  {
    hide Xor, Step, Steps;
    var x, a := Added(c, hi), CrcByte(c, hi);
    Eight(0);
    StepsInjective(Added(a, lo), 0, 8);
    XorEqual(a, 0x100 * lo);
    Eight(lo);
    StepsInjective(x, lo, 8);
    XorByte(c, 0x100 * hi);
    XorEqual(c / 0x100, hi);
    XorZero(c % 0x100);
  }

  // ---------- the register over mark bytes ----------

  /** One bit of `v`, the one of weight `w`, changed. */
  function Toggled(v: int, w: int): int
    requires w > 0
  {
    if v / w % 2 == 1 then v - w else v + w
  }

  lemma {:induction false} XorShifted(v: nat, n: nat)
    ensures Xor(v, Shl(1, n)) == if Shr(v, n) % 2 == 1 then v - Shl(1, n) else v + Shl(1, n)
  {
    hide Xor;
    XorStep(v, Shl(1, n));
    if n == 0 {
      XorZero(v / 2);
    } else {
      XorShifted(v / 2, n - 1);
      ShrHalf(v, n);
    }
  }

  lemma XorBit(v: nat, n: nat)
    requires n in {0, 5, 7, 12}
    ensures Xor(v, Shl(1, n))
            == Toggled(v, if n == 0 then 1 else if n == 5 then 0x20 else if n == 7 then 0x80 else 0x1000)
  {
    hide Xor;
    XorShifted(v, n);
    ThreeBits();
    ShrIs(v);
  }

  lemma ShrIs(v: nat)
    ensures Shr(v, 5) == v / 0x20 && Shr(v, 7) == v / 0x80 && Shr(v, 12) == v / 0x1000
  {
    assert Shr(v, 1) == v / 2;
    assert Shr(v, 2) == v / 4;
    assert Shr(v, 3) == v / 8;
    assert Shr(v, 4) == v / 0x10;
    assert Shr(v, 6) == v / 0x40;
    assert Shr(v, 8) == v / 0x100;
    assert Shr(v, 10) == v / 0x400;
  }

  /** Exclusive or with three bits. */
  lemma XorThree(v: nat, k: nat)
    requires k == 7 || k == 12
    ensures Shl(1, k) > 0 && Xor(v, 0x21 + Shl(1, k)) == Toggled(Toggled(Toggled(v, 1), 0x20), Shl(1, k))
  {
    hide Xor, Toggled;
    ThreeBits();
    XorBit(v, 0);
    XorBit(Xor(v, 1), 5);
    XorBit(Xor(Xor(v, 1), 0x20), k);
    XorAssoc(v, 1, 0x20);
    XorAssoc(v, 0x21, Shl(1, k));
    SmallBits(k);
  }

  lemma ThreeBits()
    ensures Shl(1, 0) == 1 && Shl(1, 5) == 0x20 && Shl(1, 7) == 0x80 && Shl(1, 12) == 0x1000
  {
    assert Shl(1, 3) == 8;
    assert Shl(1, 6) == 0x40;
    assert Shl(1, 9) == 0x200;
  }

  lemma SmallBits(k: nat)
    requires k == 7 || k == 12
    ensures Xor(1, 0x20) == 0x21 && Xor(0x21, Shl(1, k)) == 0x21 + Shl(1, k)
  {
    hide Xor;
    ThreeBits();
    XorBit(1, 5);
    XorBit(0x21, k);
  }

  lemma StepValue(c: Word)
    ensures Step(c) == if c < 0x8000 then 2 * c else Toggled(Toggled(Toggled(2 * c - 0x1_0000, 1), 0x20), 0x1000)
  {
    hide Xor;
    ThreeBits();
    if c >= 0x8000 { XorThree(2 * c - 0x1_0000, 12); }
  }

  /** A mark byte changes bits 0, 5 and 7 of the register's upper half. */
  lemma AddedMark(c: Word)
    ensures Added(c, 0xA1) == 0x100 * Toggled(Toggled(Toggled(c / 0x100, 1), 0x20), 0x80) + c % 0x100
  {
    hide Xor, Toggled;
    ThreeBits();
    XorThree(c / 0x100, 7);
    XorByte(c, 0xA100);
    XorZero(c % 0x100);
  }

  /** The register after one and after two mark bytes: it is not back where it started. */
  lemma MarkBytes()
    ensures Crc([0xA1]) == 0x443B && Crc([0xA1, 0xA1]) == 0x968B
  {
    hide Step, Added, Steps;
    AddedMark(0xFFFF);
    AddedMark(0x443B);
    FirstMark();
    SecondMark();
    OneByte(0xFFFF, 0xA1);
    assert [0xA1, 0xA1][..1] == [0xA1];
  }

  lemma FirstMark()
    ensures Steps(0x5EFF, 8) == 0x443B
  {
    hide Step;
    StepValue(0x5EFF); StepValue(0xBDFE); StepValue(0x6BDD); StepValue(0xD7BA);
    StepValue(0xBF55); StepValue(0x6E8B); StepValue(0xDD16); StepValue(0xAA0D);
    assert Steps(0x5EFF, 2) == 0x6BDD;
    assert Steps(0x5EFF, 4) == 0xBF55;
    assert Steps(0x5EFF, 6) == 0xDD16;
  }

  lemma SecondMark()
    ensures Steps(0xE53B, 8) == 0x968B
  {
    hide Step;
    StepValue(0xE53B); StepValue(0xDA57); StepValue(0xA48F); StepValue(0x593F);
    StepValue(0xB27E); StepValue(0x74DD); StepValue(0xE9BA); StepValue(0xC355);
    assert Steps(0xE53B, 2) == 0xA48F;
    assert Steps(0xE53B, 4) == 0xB27E;
    assert Steps(0xE53B, 6) == 0xE9BA;
  }

  /** A checksum taken from the second or third of three mark bytes on is never the right one. */
  lemma LateStart(s: seq<Byte>, d: nat)
    requires |s| >= 2 && s[0] == s[1] == 0xA1 && (d == 1 || d == 2)
    ensures Crc(s[d..]) != Crc(s)
  {
    hide CrcByte;
    MarkBytes();
    assert s == s[..d] + s[d..];
    assert s[..d] == if d == 1 then [0xA1] else [0xA1, 0xA1];
    CrcAppend(0xFFFF, s[..d], s[d..]);
    if Crc(s[d..]) == Crc(s) { FromInjective(0xFFFF, Crc(s[..d]), s[d..]); assert false; }
  }
}
