/** The nibble format in plain bits: which bit of a page is where on the disk. */
module NibbleBits {
  import opened BitOps
  import opened Nibble
  import opened NibbleTrack

  // ---------- the 64 disk bytes ----------

  function Bit(b: nat, i: nat): nat { Shr(b, i) % 2 }

  /** The pairs of zeros among neighbouring bits. */
  function ZeroPairs(b: Byte, n: nat): nat
  {
    if n == 0 then 0 else ZeroPairs(b, n - 1) + Neither(b, n)
  }

  function Neither(b: Byte, n: nat): nat
    requires n > 0
  {
    if Bit(b, n) == 0 && Bit(b, n - 1) == 0 then 1 else 0
  }

  predicate Both(b: Byte, i: nat) { Bit(b, i) == 1 && Bit(b, i + 1) == 1 }

  /** Two ones side by side below the top bit. */
  predicate OnePair(b: Byte) {
    exists i :: 0 <= i < 6 && Both(b, i)
  }

  /** What the drive can read as data: the top bit is set, no more than two zeros follow one another
      and that only once, two ones stand side by side below the top bit; and the bytes of the marks
      are kept out. */
  predicate DiskByte(b: Byte) {
    Bit(b, 7) == 1 && ZeroPairs(b, 7) <= 1 && OnePair(b) && b != 0xAA && b != 0xD5
  }

  /** The bits of a byte, lowest first. */
  lemma Bits(b: Byte)
    ensures var h, l := b / 16, b % 16;
            Bit(b, 0) == l % 2 && Bit(b, 1) == l / 2 % 2 && Bit(b, 2) == l / 4 % 2 && Bit(b, 3) == l / 8
            && Bit(b, 4) == h % 2 && Bit(b, 5) == h / 2 % 2 && Bit(b, 6) == h / 4 % 2 && Bit(b, 7) == h / 8
  {
    Shifts(b);
    Halves(b / 16, b % 16);
  }

  lemma Shifts(b: Byte)
    ensures Shr(b, 0) == b && Shr(b, 1) == b / 2 && Shr(b, 2) == b / 4 && Shr(b, 3) == b / 8 && Shr(b, 4) == b / 16
    ensures Shr(b, 5) == b / 16 / 2 && Shr(b, 6) == b / 16 / 4 && Shr(b, 7) == b / 16 / 8
  {
    assert Shr(b, 1) == b / 2;
    assert Shr(b, 2) == b / 4;
    assert Shr(b, 3) == b / 8;
    assert Shr(b, 4) == b / 16;
    assert Shr(b, 5) == b / 16 / 2;
    assert Shr(b, 6) == b / 16 / 4;
  }

  lemma Halves(h: nat, l: nat)
    requires h < 16 && l < 16
    ensures var b := 16 * h + l;
            b % 2 == l % 2 && b / 2 % 2 == l / 2 % 2 && b / 4 % 2 == l / 4 % 2 && b / 8 % 2 == l / 8
    ensures h / 8 % 2 == h / 8
  {
    assert (16 * h + l) / 2 == 8 * h + l / 2;
    assert (16 * h + l) / 4 == 4 * h + l / 4;
    assert (16 * h + l) / 8 == 2 * h + l / 8;
  }

  lemma Pairs(b: Byte)
    ensures OnePair(b) <==> Both(b, 0) || Both(b, 1) || Both(b, 2) || Both(b, 3) || Both(b, 4) || Both(b, 5)
    ensures ZeroPairs(b, 7) == Neither(b, 1) + Neither(b, 2) + Neither(b, 3) + Neither(b, 4) + Neither(b, 5)
                               + Neither(b, 6) + Neither(b, 7)
  {
    hide Bit;
    ZeroPairsTo(b, 1); ZeroPairsTo(b, 2); ZeroPairsTo(b, 3); ZeroPairsTo(b, 4);
    ZeroPairsTo(b, 5); ZeroPairsTo(b, 6); ZeroPairsTo(b, 7);
  }

  lemma ZeroPairsTo(b: Byte, n: nat)
    requires n > 0
    ensures ZeroPairs(b, n) == ZeroPairs(b, n - 1) + Neither(b, n) && ZeroPairs(b, 0) == 0
  {
  }

  predicate Shaped(b: Byte, h: nat, l: nat)
    requires h < 16 && l < 16
  {
    UnGcr(b) < 64 <==> Fits(h / 8, h / 4 % 2, h / 2 % 2, h % 2, l / 8, l / 4 % 2, l / 2 % 2, l % 2)
                       && b != 0xAA && b != 0xD5
  }

  lemma Shape(b: Byte, h: nat, l: nat)
    requires h < 16 && l < 16 && b == 16 * h + l
    ensures Shaped(b, h, l)
  {
    hide Shaped;
    if h < 9 {
      Rows0(b, h, l);
    } else if h < 11 {
      Rows9(b, h, l);
    } else if h < 13 {
      Rows11(b, h, l);
    } else if h == 13 {
      Row13(b, h, l);
    } else {
      Rows14(b, h, l);
    }
  }

  lemma Rows0(b: Byte, h: nat, l: nat)
    requires h < 9 && l < 16 && b == 16 * h + l
    ensures Shaped(b, h, l)
  {
  }

  lemma Rows9(b: Byte, h: nat, l: nat)
    requires 9 <= h < 11 && l < 16 && b == 16 * h + l
    ensures Shaped(b, h, l)
  {
  }

  lemma Rows11(b: Byte, h: nat, l: nat)
    requires 11 <= h < 13 && l < 16 && b == 16 * h + l
    ensures Shaped(b, h, l)
  {
  }

  lemma Row13(b: Byte, h: nat, l: nat)
    requires h == 13 && l < 16 && b == 16 * h + l
    ensures Shaped(b, h, l)
  {
  }

  lemma Rows14(b: Byte, h: nat, l: nat)
    requires 14 <= h < 16 && l < 16 && b == 16 * h + l
    ensures Shaped(b, h, l)
  {
  }

  /** The conditions on the bits. */
  predicate Fits(a: nat, b: nat, c: nat, d: nat, e: nat, f: nat, g: nat, h: nat) {
    && a == 1
    && (b + c == 2 || c + d == 2 || d + e == 2 || e + f == 2 || f + g == 2 || g + h == 2)
    && None(a, b) + None(b, c) + None(c, d) + None(d, e) + None(e, f) + None(f, g) + None(g, h) <= 1
  }

  function None(a: nat, b: nat): nat { if a == 0 && b == 0 then 1 else 0 }

  /** The table has all such bytes and no others. */
  lemma GcrTable(b: Byte)
    ensures UnGcr(b) < 64 <==> DiskByte(b)
  {
    hide OnePair, ZeroPairs, Bit, UnGcr;
    Pairs(b);
    Bits(b);
    Shape(b, b / 16, b % 16);
  }

  lemma GcrBack(b: Byte)
    requires UnGcr(b) < 64
    ensures Gcr(UnGcr(b)) == b
  {
  }

  /** They stand in increasing order. */
  lemma GcrIncreasing(n: nat, m: nat)
    requires n < m < 64
    ensures Gcr(n) < Gcr(m)
  {
  }

  // ---------- the values of a data field ----------

  /** The two low bits of a byte, the lower one in front. */
  function LowBits(b: Byte): nat { 2 * Bit(b, 0) + Bit(b, 1) }

  /** Each entry of the secondary buffer has the low bits of three bytes of the page, 86 apart and
      counted down; and of the page's first two bytes once more where there is no third. */
  lemma LowsInBits(page: Page, i: nat)
    requires i < 86
    ensures var v := Low(page, 85 - i);
            v % 4 == LowBits(page[i]) && v / 4 % 4 == LowBits(page[i + 86])
            && v / 16 == LowBits(page[if i < 84 then i + 172 else i - 84])
  {
    hide Low, Bit, Swapped;
    LowDigits(page, 85 - i);
    SwappedBits(page[i]);
    SwappedBits(page[i + 86]);
    SwappedBits(page[if i < 84 then i + 172 else i - 84]);
  }

  lemma SwappedBits(b: Byte)
    ensures Swapped(b) == LowBits(b)
  {
    assert Shr(b, 0) == b && Shr(b, 1) == b / 2;
  }

  /** Value `k` of a data field: first the low bits, then the upper six bits of each byte. */
  function ValueAt(page: Page, k: nat): nat
    requires k < 342
  {
    if k >= 86 then Shr(page[k - 86], 2)
    else 16 * LowBits(page[if k < 84 then k + 172 else k - 84]) + 4 * LowBits(page[k + 86]) + LowBits(page[k])
  }

  lemma ValuesAre(page: Page, k: nat)
    requires k < 342
    ensures Values(page)[k] == ValueAt(page, k) < 64 && Values(page)[342] == 0
  {
    hide Low, LowBits;
    if k < 86 {
      LowsInBits(page, k);
      ThreeParts(Low(page, 85 - k));
    } else {
      ShrTwo(page[k - 86]);
    }
  }

  lemma ShrTwo(b: Byte)
    ensures Shr(b, 2) == b / 4
  {
    assert Shr(b, 1) == b / 2;
  }

  lemma ThreeParts(v: nat)
    ensures v == 16 * (v / 16) + 4 * (v / 4 % 4) + v % 4
  {
    assert v / 4 / 4 == v / 16;
  }

  /** On the disk each value is summed with the one before it; the last byte is the last value. */
  lemma DataByte(page: Page, k: nat)
    requires k < 343
    ensures UnGcr(DataNibbles(page)[k]) == Xor(if k == 0 then 0 else ValueAt(page, k - 1),
                                               if k == 342 then 0 else ValueAt(page, k))
    ensures DiskByte(DataNibbles(page)[k])
  {
    hide Xor, Values, ValueAt, Chained, UnGcr, Gcr;
    var v := Values(page);
    ChainFits(v, 0);
    ChainedAt(v, 0, k);
    GcrUndone(Chained(v, 0)[k]);
    GcrTable(DataNibbles(page)[k]);
    if k > 0 { ValuesAre(page, k - 1); }
    if k < 342 { ValuesAre(page, k); } else { ValuesAre(page, 0); }
  }

  lemma {:induction false} ChainedAt(s: seq<nat>, last: nat, k: nat)
    requires k < |s|
    ensures Chained(s, last)[k] == Xor(if k == 0 then last else s[k - 1], s[k])
  {
    hide Xor;
    if k == 0 {
    } else {
      ChainedAt(s[1..], s[0], k - 1);
    }
  }

  /** The marks in front of the fields and behind them. */
  lemma FieldMarks(page: Page, volume: Byte, track: Byte, sector: Byte)
    ensures DataField(page) == [0xD5, 0xAA, 0xAD] + DataNibbles(page) + [0xDE, 0xAA, 0xEB]
    ensures AddressField(volume, track, sector)
            == [0xD5, 0xAA, 0x96] + AddressBytes(volume, track, sector) + [0xDE, 0xAA, 0xEB]
  {
    hide DataNibbles, AddressBytes;
  }

  // ---------- the address field ----------

  /** The first byte of a pair has the bits of odd weight and the second those of even weight, each
      where the even ones are; all other bits are ones. */
  lemma FmBits(d: Byte, i: nat)
    requires i < 4
    ensures Bit(Fm(d)[0], 2 * i) == Bit(d, 2 * i + 1) && Bit(Fm(d)[0], 2 * i + 1) == 1
    ensures Bit(Fm(d)[1], 2 * i) == Bit(d, 2 * i) && Bit(Fm(d)[1], 2 * i + 1) == 1
  {
    hide Fm, Or, Bit;
    OrBits(d / 2, i);
    OrBits(d, i);
    FmIs(d);
    BitHalf(d, 2 * i + 1);
  }

  lemma FmIs(d: Byte)
    ensures Fm(d) == [Or(d / 2, 0xAA), Or(d, 0xAA)]
  {
    hide Or;
  }

  lemma BitHalf(d: nat, i: nat)
    requires i > 0
    ensures Bit(d, i) == Bit(d / 2, i - 1)
  {
    ShrHalf(d, i);
  }

  /** An `or` takes the bits one by one. */
  lemma {:induction false} OrBit(a: nat, b: nat, i: nat)
    ensures Bit(Or(a, b), i) == if Bit(a, i) == 1 || Bit(b, i) == 1 then 1 else 0
    decreases i
  {
    hide Or, Bit;
    OrHalf(a, b);
    if i == 0 {
      BitZero(a);
      BitZero(b);
      BitZero(Or(a, b));
    } else {
      OrBit(a / 2, b / 2, i - 1);
      BitHalf(a, i);
      BitHalf(b, i);
      BitHalf(Or(a, b), i);
    }
  }

  lemma BitZero(a: nat)
    ensures Bit(a, 0) == a % 2
  {
  }

  lemma OrBits(a: nat, i: nat)
    requires i < 4
    ensures Bit(Or(a, 0xAA), 2 * i) == Bit(a, 2 * i) && Bit(Or(a, 0xAA), 2 * i + 1) == 1
  {
    hide Or, Bit;
    OrBit(a, 0xAA, 2 * i);
    OrBit(a, 0xAA, 2 * i + 1);
    Bits(0xAA);
    BitBelow(a, 2 * i);
  }

  lemma BitBelow(a: nat, i: nat)
    ensures Bit(a, i) <= 1
  {
  }

  /** The four bytes of an address field sum up to zero. */
  lemma AddressSum(volume: Byte, track: Byte, sector: Byte)
    ensures Xor(Xor(volume, track), Xor(sector, Sum(volume, track, sector))) == 0
  {
    hide Xor;
    var s := Xor(volume, track);
    XorAssoc(s, sector, Sum(volume, track, sector));
    XorSelf(Xor(s, sector));
  }

  // ---------- the order of the sectors ----------

  /** In a .po image the pages of the even sectors come first, and then those of the odd ones; in any
      other, the odd sectors have the pages from 7 down, the even ones those from 14 down, and the
      first and the last sector the pages of their own numbers. */
  lemma SectorOrder(sector: nat)
    requires sector < 16
    ensures PageIndex(sector, true) == sector / 2 + 8 * (sector % 2)
    ensures PageIndex(sector, false) == if sector == 0 || sector == 15 then sector
                                        else if sector % 2 == 1 then 7 - sector / 2 else 15 - sector / 2
  {
    hide Logical;
    LogicalIs(sector);
    LogicalIs(LogicalPo(sector));
  }

  lemma LogicalIs(n: nat)
    requires n < 16
    ensures Logical(n) == if n == 0 || n == 15 then n else if n % 2 == 1 then 7 - n / 2 else 15 - n / 2
  {
  }

  /** Where sector `n` is on the track: 38 bytes of 0xFF, the address field, eight bytes of 0xFF and
      the data field of its page, in volume 254. */
  lemma SectorAt(dos: DosTrack, track: Byte, n: nat, po: bool)
    requires n < 16
    ensures TrackBytes(dos, track, po)[409 * n..409 * n + 409]
            == Sync(38) + AddressField(254, track, n) + Sync(8) + DataField(PageOf(dos, n, po))
    ensures forall i :: 409 * 16 <= i < 0x1A00 ==> TrackBytes(dos, track, po)[i] == 0xFF
  {
    hide SectorBytes, Sectors, AddressField, DataField;
    SectorIn(dos, track, 16, po, n);
    SectorIs(dos, track, n, po);
  }

  lemma SectorIs(dos: DosTrack, track: Byte, n: nat, po: bool)
    requires n < 16
    ensures SectorBytes(dos, track, n, po)
            == Sync(38) + AddressField(254, track, n) + Sync(8) + DataField(PageOf(dos, n, po))
  {
    hide AddressField, DataField;
  }

  lemma {:induction false} SectorIn(dos: DosTrack, track: Byte, m: nat, po: bool, n: nat)
    requires n < m <= 16
    ensures Sectors(dos, track, m, po)[FIELD * n..FIELD * n + FIELD] == SectorBytes(dos, track, n, po)
  {
    hide SectorBytes;
    if n == m - 1 {
    } else {
      SectorIn(dos, track, m - 1, po, n);
      var a := Sectors(dos, track, m - 1, po);
      assert (a + SectorBytes(dos, track, m - 1, po))[FIELD * n..FIELD * n + FIELD] == a[FIELD * n..FIELD * n + FIELD];
    }
  }
}
