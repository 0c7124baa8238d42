/** The nibble writer: two coding buffers that are never cleared, and a track buffer filled
    through a moving target. */
module NibbleWriter {
  import opened BitOps
  import opened Nibble
  import opened NibbleTrack

  // ---------- the secondary buffer while it is being filled ----------

  /** How many of its three bytes entry `j` has taken in after `t` steps of the loop. */
  function Taken(j: nat, t: nat): (c: nat)
    requires j < 86
    ensures c <= 3
  {
    (if t + 2 > j then 1 else 0) + (if t > j + 84 then 1 else 0) + (if t > j + 170 then 1 else 0)
  }

  /** What the low bits of an entry are then, if `v` is what they are to become. */
  function PartLow(v: nat, c: nat): nat
    requires v < 64 && c <= 3
  {
    if c == 0 then 0 else if c == 1 then v / 16 else if c == 2 then v / 4 else v
  }

  /** What the next step adds. */
  function Digit(v: nat, c: nat): (d: nat)
    requires v < 64 && c < 3
    ensures d < 4
  {
    if c == 0 then v / 16 else if c == 1 then v / 4 % 4 else v % 4
  }

  function Modulus(c: nat): (m: nat)
    ensures m >= 1
  {
    if c == 0 then 1 else if c == 1 then 4 else if c == 2 then 16 else 64
  }

  /** Entry `j` is right in its low bits; above them is whatever was there before. */
  ghost predicate PartRight(v: nat, page: Page, j: nat, t: nat)
    requires j < 86
  {
    v % Modulus(Taken(j, t)) == PartLow(Low(page, j), Taken(j, t))
  }

  /** The byte that step `t` adds to its entry. */
  lemma TakeOne(v: nat, page: Page, j: nat, t: nat)
    requires t < 256 && j == (t + 2) % 86 && v < 256 && PartRight(v, page, j, t)
    ensures PartRight(4 * v % 256 + Swapped(page[255 - t]), page, j, t + 1)
  {
    hide Low, Swapped, Modulus, PartLow;
    LowDigits(page, j);
    var c := Taken(j, t);
    if t < 84 {
      assert j == t + 2;
    } else if t < 170 {
      assert j == t - 84;
    } else {
      assert j == t - 170;
    }
    assert Taken(j, t + 1) == c + 1 && c == (if t < 84 then 0 else if t < 170 then 1 else 2);
    assert Swapped(page[255 - t]) == Digit(Low(page, j), c);
    NextPart(Low(page, j), v, c);
  }

  lemma NextPart(low: nat, v: nat, c: nat)
    requires low < 64 && v < 256 && c < 3 && v % Modulus(c) == PartLow(low, c)
    ensures (4 * v % 256 + Digit(low, c)) % Modulus(c + 1) == PartLow(low, c + 1)
  {
    ShiftIn(v, Digit(low, c));
  }

  /** Two bits in at the bottom: the digits below move up by one. */
  lemma ShiftIn(v: nat, s: nat)
    requires v < 256 && s < 4
    ensures (4 * v % 256 + s) % 4 == s
    ensures (4 * v % 256 + s) % 16 == 4 * (v % 4) + s
    ensures (4 * v % 256 + s) % 64 == 4 * (v % 16) + s
  {
    var a := v / 64;
    var b := (v - 64 * a) / 16;
    var c := (v - 64 * a - 16 * b) / 4;
    var d := v - 64 * a - 16 * b - 4 * c;
    DigitsOf(v, a, b, c, d);
    DigitsIn(b, c, d, s);
    assert 4 * v - 256 * a == 64 * b + 16 * c + 4 * d;
  }

  lemma DigitsOf(v: nat, a: nat, b: nat, c: nat, d: nat)
    requires a < 4 && b < 4 && c < 4 && d < 4 && v == 64 * a + 16 * b + 4 * c + d
    ensures 4 * v % 256 == 4 * v - 256 * a && v % 4 == d && v % 16 == 4 * c + d
  {
  }

  lemma DigitsIn(b: nat, c: nat, d: nat, s: nat)
    requires b < 4 && c < 4 && d < 4 && s < 4
    ensures (64 * b + 16 * c + 4 * d + s) % 4 == s
    ensures (64 * b + 16 * c + 4 * d + s) % 16 == 4 * d + s
    ensures (64 * b + 16 * c + 4 * d + s) % 64 == 16 * c + 4 * d + s
  {
  }

  lemma OthersKept(v: nat, page: Page, k: nat, t: nat)
    requires t < 256 && k < 86 && k != (t + 2) % 86 && PartRight(v, page, k, t)
    ensures PartRight(v, page, k, t + 1)
  {
  }

  class Writer {
    const gcr: array<Byte>
    const gcr2: array<Byte>
    const raw: array<Byte>
    var target: nat

    ghost predicate Valid()
      reads this
    {
      gcr.Length == 256 && gcr2.Length == 86 && raw.Length == RAW_TRACK
      && gcr != gcr2 && gcr != raw && gcr2 != raw && target <= RAW_TRACK
    }

    ghost function Written(): seq<Byte>
      requires Valid()
      reads this, raw
    {
      raw[..target]
    }

    constructor ()
      ensures Valid() && target == 0 && fresh(gcr) && fresh(gcr2) && fresh(raw)
    {
      gcr := new Byte[256];
      gcr2 := new Byte[86];
      raw := new Byte[RAW_TRACK];
      target := 0;
    }

    method WriteByte(x: Byte)
      requires Valid() && target < RAW_TRACK
      modifies this`target, raw
      ensures Valid() && Written() == old(Written()) + [x]
    {
      raw[target] := x;
      target := target + 1;
    }

    method FmEncode(d: Byte)
      requires Valid() && target + 2 <= RAW_TRACK
      modifies this`target, raw
      ensures Valid() && Written() == old(Written()) + Fm(d)
    {
      OrAA(d / 2);
      OrAA(d);
      WriteByte(Or(d / 2, 0xAA));
      WriteByte(Or(d, 0xAA));
    }

    method WriteSync(length: nat)
      requires Valid() && target + length <= RAW_TRACK
      modifies this`target, raw
      ensures Valid() && Written() == old(Written()) + Sync(length)
    {
      var n := length;
      while n > 0
        invariant 0 <= n <= length && Valid() && target + n <= RAW_TRACK
        invariant Written() == old(Written()) + Sync(length - n)
      {
        n := n - 1;
        WriteByte(0xFF);
      }
    }

    method WriteEpilogue()
      requires Valid() && target + 3 <= RAW_TRACK
      modifies this`target, raw
      ensures Valid() && Written() == old(Written()) + EPILOGUE
    {
      WriteByte(0xDE);
      WriteByte(0xAA);
      WriteByte(0xEB);
    }

    method WriteAddressField(volume: Byte, track: Byte, sector: Byte)
      requires Valid() && target + 14 <= RAW_TRACK
      modifies this`target, raw
      ensures Valid() && Written() == old(Written()) + AddressField(volume, track, sector)
    {
      hide Fm, Sum;
      ghost var w := Written();
      WritePrologue(0x96);
      FmEncode(volume);
      FmEncode(track);
      FmEncode(sector);
      FmEncode(Sum(volume, track, sector));
      WriteEpilogue();
      assert w + [0xD5, 0xAA, 0x96] + Fm(volume) + Fm(track) + Fm(sector) + Fm(Sum(volume, track, sector)) + EPILOGUE
          == w + AddressField(volume, track, sector);
    }

    method WritePrologue(kind: Byte)
      requires Valid() && target + 3 <= RAW_TRACK
      modifies this`target, raw
      ensures Valid() && Written() == old(Written()) + [0xD5, 0xAA, kind]
    {
      WriteByte(0xD5);
      WriteByte(0xAA);
      WriteByte(kind);
    }

    /** 6-and-2 coding of a page into the two buffers, whatever they held before. */
    method Encode62(page: Page)
      requires Valid()
      modifies gcr, gcr2
      ensures gcr[..] == Highs(page) && gcr2[..] == Lows(page)
    {
      hide PartRight, Low;
      gcr2[0] := Swapped(page[1]);
      gcr2[1] := Swapped(page[0]);
      forall k | 0 <= k < 86 ensures PartRight(gcr2[k], page, k, 0) { FirstPart(gcr2[k], page, k); }
      var i, j := 255, 2;
      while i >= 0
        invariant -1 <= i <= 255 && j == (257 - i) % 86
        invariant forall k :: 0 <= k < 86 ==> PartRight(gcr2[k], page, k, 255 - i)
        invariant forall k :: i < k < 256 ==> gcr[k] == page[k] / 4
      {
        TakeByte(page, i, j);
        i := i - 1;
        j := if j == 85 then 0 else j + 1;
      }
      ClearHigh(page);
    }

    method TakeByte(page: Page, i: nat, j: nat)
      requires Valid() && i < 256 && j == (257 - i) % 86
      requires forall k :: 0 <= k < 86 ==> PartRight(gcr2[k], page, k, 255 - i)
      modifies gcr, gcr2
      ensures forall k :: 0 <= k < 86 ==> PartRight(gcr2[k], page, k, 256 - i)
      ensures forall k :: 0 <= k < 256 ==> gcr[k] == if k == i then page[i] / 4 else old(gcr[k])
    {
      hide PartRight, Low;
      ghost var t := 255 - i;
      forall k | 0 <= k < 86 && k != j ensures PartRight(gcr2[k], page, k, t + 1) { OthersKept(gcr2[k], page, k, t); }
      TakeOne(gcr2[j], page, j, t);
      var v: nat := gcr2[j];
      gcr2[j] := 4 * v % 256 + Swapped(page[i]);
      gcr[i] := page[i] / 4;
    }

    /** The last loop: drop what earlier pages left in the upper bits. */
    method ClearHigh(page: Page)
      requires Valid() && forall k :: 0 <= k < 86 ==> PartRight(gcr2[k], page, k, 256)
      modifies gcr2
      ensures gcr2[..] == Lows(page)
    {
      hide PartRight, Low;
      var i := 0;
      while i < 86
        invariant 0 <= i <= 86
        invariant forall k :: 0 <= k < i ==> gcr2[k] == Low(page, k)
        invariant forall k :: i <= k < 86 ==> PartRight(gcr2[k], page, k, 256)
      {
        AllTaken(gcr2[i], page, i);
        gcr2[i] := gcr2[i] % 64;
        i := i + 1;
      }
    }

    /** A data field: the coded page, each disk byte the running sum of two neighbours. */
    method WriteDataField(page: Page)
      requires Valid() && target + 349 <= RAW_TRACK
      modifies this`target, raw, gcr, gcr2
      ensures Valid() && Written() == old(Written()) + DataField(page)
    {
      hide DataNibbles;
      ghost var w := Written();
      Encode62(page);
      WritePrologue(0xAD);
      WriteNibbles(page);
      WriteEpilogue();
      assert w + [0xD5, 0xAA, 0xAD] + DataNibbles(page) + EPILOGUE == w + DataField(page);
    }

    method WriteNibbles(page: Page)
      requires Valid() && target + 343 <= RAW_TRACK && gcr[..] == Highs(page) && gcr2[..] == Lows(page)
      modifies this`target, raw
      ensures Valid() && Written() == old(Written()) + DataNibbles(page)
    {
      hide Low, Xor, DataNibbles, Values;
      ghost var w := Written();
      var last := WriteLows(page);
      WriteHighs(page, last, w);
    }

    /** The secondary buffer, last entry first. */
    method WriteLows(page: Page) returns (last: nat)
      requires Valid() && target + 343 <= RAW_TRACK && gcr2[..] == Lows(page)
      modifies this`target, raw
      ensures Valid() && Written() == old(Written()) + DataNibbles(page)[..86]
      ensures last == Values(page)[85]
    {
      hide Low, Xor, DataNibbles;
      ghost var w, v := Written(), Values(page);
      last := 0;
      var i := 0x55;
      while i >= 0
        invariant -1 <= i <= 0x55 && Valid() && target == |w| + (0x55 - i) && target + 258 + i <= RAW_TRACK
        invariant last == (if i == 0x55 then 0 else v[0x54 - i]) && last < 64
        invariant Written() == w + DataNibbles(page)[..0x55 - i]
      {
        NibbleAt(page, 0x55 - i);
        WriteByte(Gcr(Xor(last, gcr2[i])));
        last := gcr2[i];
        i := i - 1;
      }
    }

    /** The upper six bits of every byte, and the last of them once more as the check. */
    method WriteHighs(page: Page, before: nat, ghost w: seq<Byte>)
      requires Valid() && target + 257 <= RAW_TRACK && gcr[..] == Highs(page)
      requires before == Values(page)[85] && Written() == w + DataNibbles(page)[..86]
      modifies this`target, raw
      ensures Valid() && Written() == w + DataNibbles(page)
    {
      hide Low, Xor, DataNibbles;
      ghost var v := Values(page);
      var last := before;
      var i := 0;
      while i < 256
        invariant 0 <= i <= 256 && Valid() && target == |w| + 86 + i && target + 257 - i <= RAW_TRACK
        invariant last == v[85 + i] < 64 && Written() == w + DataNibbles(page)[..86 + i]
      {
        NibbleAt(page, 86 + i);
        WriteByte(Gcr(Xor(last, gcr[i])));
        last := gcr[i];
        i := i + 1;
      }
      NibbleAt(page, 342);
      XorZero(last);
      WriteByte(Gcr(last));
    }

    method WriteSector(dos: DosTrack, track: Byte, sector: nat, po: bool)
      requires Valid() && sector < 16 && target + FIELD <= RAW_TRACK
      modifies this`target, raw, gcr, gcr2
      ensures Valid() && Written() == old(Written()) + SectorBytes(dos, track, sector, po)
    {
      hide AddressField, DataField, Sum;
      ghost var w := Written();
      WriteSync(38);
      WriteAddressField(VOLUME, track, sector);
      WriteSync(8);
      WriteDataField(PageOf(dos, sector, po));
      assert w + Sync(38) + AddressField(VOLUME, track, sector) + Sync(8) + DataField(PageOf(dos, sector, po))
          == w + SectorBytes(dos, track, sector, po);
    }

    /** One track: sixteen sectors, then sync to the end of the buffer. */
    method ConvertTrack(dos: DosTrack, track: Byte, po: bool)
      requires Valid()
      modifies this`target, raw, gcr, gcr2
      ensures Valid() && raw[..] == TrackBytes(dos, track, po)
    {
      hide SectorBytes;
      target := 0;
      var sector: nat := 0;
      while sector < 16
        invariant sector <= 16 && Valid() && target == FIELD * sector
        invariant Written() == Sectors(dos, track, sector, po)
      {
        WriteSector(dos, track, sector, po);
        sector := sector + 1;
      }
      ghost var w := Written();
      while target != RAW_TRACK
        invariant Valid() && |w| <= target && Written() == w + Sync(target - |w|)
        decreases RAW_TRACK - target
      {
        WriteByte(0xFF);
      }
      assert Written() == raw[..];
    }
  }

  /** The disk bytes of a page, one at a time. */
  lemma NibbleAt(page: Page, k: nat)
    requires k < 343
    ensures var v := Values(page);
            var x := Xor(if k == 0 then 0 else v[k - 1], v[k]);
            x < 64 && DataNibbles(page)[k] == Gcr(x)
  {
    hide Xor, Low;
    ChainFits(Values(page), 0);
    ChainAt(Values(page), 0, k);
  }

  lemma {:induction false} ChainAt(s: seq<nat>, last: nat, k: nat)
    requires k < |s|
    ensures Chained(s, last)[k] == Xor(if k == 0 then last else s[k - 1], s[k])
  {
    if k == 0 {
    } else {
      ChainAt(s[1..], s[0], k - 1);
    }
  }

  lemma FirstPart(v: nat, page: Page, k: nat)
    requires k < 86 && (k < 2 ==> v == Swapped(page[1 - k]))
    ensures PartRight(v, page, k, 0)
  {
    LowDigits(page, k);
  }

  lemma AllTaken(v: nat, page: Page, k: nat)
    requires k < 86 && PartRight(v, page, k, 256)
    ensures v % 64 == Low(page, k)
  {
  }
}
