/** A whole track of nibbles, and a reader that knows only the marks. */
module NibbleTrack {
  import opened BitOps
  import opened Nibble

  const VOLUME: Byte := 254
  const SECTORS: nat := 16
  const FIELD: nat := 409
  const RAW_TRACK: nat := 0x1A00

  type DosTrack = t: seq<Byte> | |t| == 4096 witness seq(4096, _ => 0)

  // ---------- what is written ----------

  function Logical(n: nat): (r: nat)
    requires n < 16
    ensures r < 16
  {
    if n == 15 then 15 else n * 7 % 15
  }

  /** The order of a .po image. */
  function LogicalPo(n: nat): (r: nat)
    requires n < 16
    ensures r < 16
  {
    if n == 0 then 0 else if n == 15 then 15 else 15 - n
  }

  /** The page of the image that goes into a physical sector. */
  function PageIndex(sector: nat, po: bool): (r: nat)
    requires sector < 16
    ensures r < 16
  {
    Logical(if po then LogicalPo(sector) else sector)
  }

  function PageOf(dos: DosTrack, sector: nat, po: bool): Page
    requires sector < 16
  {
    dos[256 * PageIndex(sector, po)..256 * PageIndex(sector, po) + 256]
  }

  function Sync(n: nat): (s: seq<Byte>)
    ensures |s| == n && forall i :: 0 <= i < n ==> s[i] == 0xFF
  {
    seq(n, _ => 0xFF)
  }

  function Sum(volume: Byte, track: Byte, sector: Byte): (c: Byte) {
    Powers(1);
    XorBelow(volume, track, 8);
    XorBelow(Xor(volume, track), sector, 8);
    Xor(Xor(volume, track), sector)
  }

  function AddressBytes(volume: Byte, track: Byte, sector: Byte): (r: seq<Byte>)
    ensures |r| == 8
  {
    Fm(volume) + Fm(track) + Fm(sector) + Fm(Sum(volume, track, sector))
  }

  function AddressField(volume: Byte, track: Byte, sector: Byte): (r: seq<Byte>)
    ensures |r| == 14
  {
    [0xD5, 0xAA, 0x96] + AddressBytes(volume, track, sector) + EPILOGUE
  }

  function SectorBytes(dos: DosTrack, track: Byte, sector: nat, po: bool): (r: seq<Byte>)
    requires sector < 16
    ensures |r| == FIELD
  {
    Sync(38) + AddressField(VOLUME, track, sector) + Sync(8) + DataField(PageOf(dos, sector, po))
  }

  /** The first `n` sectors of a track. */
  function Sectors(dos: DosTrack, track: Byte, n: nat, po: bool): (r: seq<Byte>)
    requires n <= 16
    ensures |r| == FIELD * n
  {
    if n == 0 then [] else Sectors(dos, track, n - 1, po) + SectorBytes(dos, track, n - 1, po)
  }

  function TrackBytes(dos: DosTrack, track: Byte, po: bool): (r: seq<Byte>)
    ensures |r| == RAW_TRACK
  {
    Sectors(dos, track, 16, po) + Sync(RAW_TRACK - FIELD * 16)
  }

  // ---------- the sector order ----------

  /** Each page of the image is written to exactly one sector of the track. */
  lemma EachPageOnce(page: nat, po: bool)
    requires page < 16
    ensures exists s :: 0 <= s < 16 && PageIndex(s, po) == page
    ensures forall s, s' :: 0 <= s < 16 && 0 <= s' < 16 && PageIndex(s, po) == page && PageIndex(s', po) == page ==>
              s == s'
  {
    var s := if page == 15 then 15 else page * 13 % 15;
    LogicalInverse(page);
    var w := if po then LogicalPo(s) else s;
    assert PageIndex(w, po) == page;
    forall t | 0 <= t < 16 && PageIndex(t, po) == page ensures t == w {
      LogicalInverse2(if po then LogicalPo(t) else t);
    }
  }

  lemma LogicalInverse(page: nat)
    requires page < 16
    ensures var s := if page == 15 then 15 else page * 13 % 15; s < 16 && Logical(s) == page
  {
  }

  lemma LogicalInverse2(s: nat)
    requires s < 16
    ensures var p := Logical(s); s == if p == 15 then 15 else p * 13 % 15
  {
  }

  // ---------- the reader ----------

  datatype Found = Found(volume: int, track: int, sector: int, check: int, page: Page)

  predicate StartsWith(r: seq<Byte>, a: Byte, b: Byte, c: Byte) {
    |r| >= 3 && r[0] == a && r[1] == b && r[2] == c
  }

  /** The page in 343 disk bytes, if they are all valid and the checksum is right. */
  function ParseData(r: seq<Byte>): (p: seq<Page>)
    requires |r| == 343
  {
    var v := UnNibbles(r);
    var s := Unchained(v, 0);
    if (forall i :: 0 <= i < 343 ==> v[i] < 64) && (forall i :: 0 <= i < 343 ==> s[i] < 64) && s[342] == 0 then
      [JoinPage(Reversed(s[..86]), s[86..342])]
    else []
  }

  /** Look for an address mark; then for a data mark; return what was found in order. */
  function Scan(r: seq<Byte>): seq<Found>
    decreases |r|
  {
    if |r| < 11 then []
    else if StartsWith(r, 0xD5, 0xAA, 0x96) then ScanData(r[11..], r[3..11])
    else Scan(r[1..])
  }

  function ScanData(r: seq<Byte>, address: seq<Byte>): seq<Found>
    requires |address| == 8
    decreases |r|
  {
    if |r| < 346 then []
    else if StartsWith(r, 0xD5, 0xAA, 0xAD) then
      var pages := ParseData(r[3..346]);
      (if pages == [] then []
       else [Found(UnFm(address[0], address[1]), UnFm(address[2], address[3]), UnFm(address[4], address[5]),
                   UnFm(address[6], address[7]), pages[0])]) + Scan(r[346..])
    else ScanData(r[1..], address)
  }

  // ---------- what the reader finds ----------

  lemma {:induction false} ScanSkips(a: seq<Byte>, r: seq<Byte>)
    requires forall i :: 0 <= i < |a| ==> a[i] != 0xD5
    ensures Scan(a + r) == Scan(r)
    decreases |a|
  {
    if a == [] {
      assert a + r == r;
    } else {
      ScanSkips(a[1..], r);
      assert (a + r)[1..] == a[1..] + r;
    }
  }

  lemma {:induction false} ScanDataSkips(a: seq<Byte>, r: seq<Byte>, address: seq<Byte>)
    requires |address| == 8 && |r| >= 346
    requires forall i :: 0 <= i < |a| ==> a[i] != 0xD5
    ensures ScanData(a + r, address) == ScanData(r, address)
    decreases |a|
  {
    if a == [] {
      assert a + r == r;
    } else {
      ScanDataSkips(a[1..], r, address);
      assert (a + r)[1..] == a[1..] + r;
    }
  }

  /** A page written is the page read. */
  lemma ParseWritten(page: Page)
    ensures ParseData(DataNibbles(page)) == [page]
  {
    hide Xor, Low;
    var v := Values(page);
    var c := Chained(v, 0);
    ChainFits(v, 0);
    forall i | 0 <= i < 343 ensures UnNibbles(Nibbles(c))[i] == c[i] { GcrUndone(c[i]); }
    assert UnNibbles(Nibbles(c)) == c;
    ChainUndone(v, 0);
    assert Reversed(v[..86]) == Lows(page);
    assert v[86..342] == Highs(page);
    JoinSplit(page);
  }

  function Expected(dos: DosTrack, track: Byte, sector: nat, po: bool): Found
    requires sector < 16
  {
    Found(VOLUME, track, sector, Sum(VOLUME, track, sector), PageOf(dos, sector, po))
  }

  lemma ScanAddress(volume: Byte, track: Byte, sector: Byte, r: seq<Byte>)
    ensures Scan(AddressField(volume, track, sector) + r)
         == ScanData(EPILOGUE + r, AddressBytes(volume, track, sector))
  {
    hide Fm, Sum;
    var f := AddressField(volume, track, sector) + r;
    assert f[3..11] == AddressBytes(volume, track, sector);
    assert f[11..] == EPILOGUE + r;
  }

  lemma ScanPage(page: Page, r: seq<Byte>, volume: Byte, track: Byte, sector: Byte)
    ensures ScanData(DataField(page) + r, AddressBytes(volume, track, sector))
         == [Found(volume, track, sector, Sum(volume, track, sector), page)] + Scan(EPILOGUE + r)
  {
    hide Sum, ParseData, DataNibbles, Scan;
    var f := DataField(page) + r;
    assert f[3..346] == DataNibbles(page);
    assert f[346..] == EPILOGUE + r;
    ParseWritten(page);
    var b := AddressBytes(volume, track, sector);
    var c := Sum(volume, track, sector);
    assert b[0] == Fm(volume)[0] && b[1] == Fm(volume)[1] && b[2] == Fm(track)[0] && b[3] == Fm(track)[1];
    assert b[4] == Fm(sector)[0] && b[5] == Fm(sector)[1] && b[6] == Fm(c)[0] && b[7] == Fm(c)[1];
  }

  lemma ScanSector(dos: DosTrack, track: Byte, sector: nat, po: bool, r: seq<Byte>)
    requires sector < 16
    ensures Scan(SectorBytes(dos, track, sector, po) + r) == [Expected(dos, track, sector, po)] + Scan(r)
  {
    hide Scan, ScanData, AddressField, AddressBytes, DataField, Sum, Fm;
    var page := PageOf(dos, sector, po);
    var address, data := AddressField(VOLUME, track, sector), DataField(page);
    var r1 := data + r;
    var r2 := Sync(8) + r1;
    var r3 := address + r2;
    assert SectorBytes(dos, track, sector, po) + r == Sync(38) + r3;
    ScanSkips(Sync(38), r3);
    ScanAddress(VOLUME, track, sector, r2);
    assert EPILOGUE + r2 == (EPILOGUE + Sync(8)) + r1;
    ScanDataSkips(EPILOGUE + Sync(8), r1, AddressBytes(VOLUME, track, sector));
    ScanPage(page, r, VOLUME, track, sector);
    ScanSkips(EPILOGUE, r);
  }

  function AllExpected(dos: DosTrack, track: Byte, n: nat, po: bool): (e: seq<Found>)
    requires n <= 16
    ensures |e| == n && forall s :: 0 <= s < n ==> e[s] == Expected(dos, track, s, po)
  {
    seq(n, s requires 0 <= s < n => Expected(dos, track, s, po))
  }

  lemma {:induction false} ScanSectors(dos: DosTrack, track: Byte, n: nat, po: bool, r: seq<Byte>)
    requires n <= 16
    ensures Scan(Sectors(dos, track, n, po) + r) == AllExpected(dos, track, n, po) + Scan(r)
  {
    hide Scan, SectorBytes, Expected;
    if n == 0 {
      assert Sectors(dos, track, 0, po) + r == r;
    } else {
      var b := SectorBytes(dos, track, n - 1, po);
      assert Sectors(dos, track, n, po) + r == Sectors(dos, track, n - 1, po) + (b + r);
      ScanSectors(dos, track, n - 1, po, b + r);
      ScanSector(dos, track, n - 1, po, r);
      assert AllExpected(dos, track, n, po) == AllExpected(dos, track, n - 1, po) + [Expected(dos, track, n - 1, po)];
    }
  }

  /** Reading a written track by its marks alone gives the sixteen sectors in order, each with
      its address, a matching check byte and the page of the image that belongs there. */
  lemma TrackRoundTrip(dos: DosTrack, track: Byte, po: bool)
    ensures Scan(TrackBytes(dos, track, po)) == AllExpected(dos, track, 16, po)
  {
    hide Scan, Sectors, Expected;
    var pad := Sync(RAW_TRACK - FIELD * 16);
    ScanSectors(dos, track, 16, po, pad);
    ScanSkips(pad, []);
    assert pad + [] == pad;
    ScanNothing();
  }

  lemma ScanNothing()
    ensures Scan([]) == []
  {
  }

  // ---------- where the mark byte occurs ----------

  /** The byte 0xD5 occurs in a sector's bytes exactly at the start of its two prologues. */
  lemma MarksInSector(dos: DosTrack, track: Byte, sector: nat, po: bool, i: nat)
    requires sector < 16 && i < FIELD
    ensures SectorBytes(dos, track, sector, po)[i] == 0xD5 <==> i == 38 || i == 60
  {
    hide DataNibbles, Sum, Fm;
    var d := DataNibbles(PageOf(dos, sector, po));
    if 63 <= i < 406 { assert SectorBytes(dos, track, sector, po)[i] == d[i - 63]; }
    else if 41 <= i < 49 { AddressByte(VOLUME, track, sector, i - 41); }
  }

  lemma AddressByte(volume: Byte, track: Byte, sector: Byte, k: nat)
    requires k < 8
    ensures AddressBytes(volume, track, sector)[k] != 0xD5
  {
    hide Sum, Fm;
    var c := Sum(volume, track, sector);
    var d := if k < 2 then volume else if k < 4 then track else if k < 6 then sector else c;
    assert AddressBytes(volume, track, sector)[k] == Fm(d)[k % 2];
  }

  lemma {:induction false} MarksInSectors(dos: DosTrack, track: Byte, n: nat, po: bool, i: nat)
    requires n <= 16 && i < FIELD * n
    ensures Sectors(dos, track, n, po)[i] == 0xD5 <==> i % FIELD == 38 || i % FIELD == 60
  {
    hide SectorBytes;
    if i < FIELD * (n - 1) {
      MarksInSectors(dos, track, n - 1, po, i);
    } else {
      MarksInSector(dos, track, n - 1, po, i - FIELD * (n - 1));
      assert i % FIELD == i - FIELD * (n - 1);
    }
  }

  /** In a whole track 0xD5 occurs only as the first byte of a field's prologue. */
  lemma MarksInTrack(dos: DosTrack, track: Byte, po: bool, i: nat)
    requires i < RAW_TRACK
    ensures TrackBytes(dos, track, po)[i] == 0xD5 <==> i < FIELD * 16 && (i % FIELD == 38 || i % FIELD == 60)
  {
    hide Sectors;
    if i < FIELD * 16 { MarksInSectors(dos, track, 16, po, i); }
  }

  // ---------- starting anywhere ----------

  /** Bytes in which no address mark begins are passed over. */
  lemma {:induction false} ScanPasses(a: seq<Byte>, r: seq<Byte>)
    requires forall i :: 0 <= i < |a| ==> !StartsWith((a + r)[i..], 0xD5, 0xAA, 0x96)
    ensures Scan(a + r) == Scan(r)
    decreases |a|
  {
    if a == [] {
      assert a + r == r;
    } else {
      assert (a + r)[1..] == a[1..] + r;
      forall i | 0 <= i < |a[1..]| ensures !StartsWith((a[1..] + r)[i..], 0xD5, 0xAA, 0x96) {
        assert (a[1..] + r)[i..] == (a + r)[i + 1..];
      }
      assert (a + r)[0..] == a + r;
      ScanPasses(a[1..], r);
    }
  }

  /** From within a sector on: it is found if its address mark has not begun, and passed over if it
      has. */
  lemma ScanPart(dos: DosTrack, track: Byte, sector: nat, po: bool, o: nat, r: seq<Byte>)
    requires sector < 16 && o <= FIELD
    ensures Scan(SectorBytes(dos, track, sector, po)[o..] + r)
         == (if o <= 38 then [Expected(dos, track, sector, po)] else []) + Scan(r)
  {
    hide Scan, SectorBytes, Expected;
    var b := SectorBytes(dos, track, sector, po);
    if o <= 38 {
      assert b + r == b[..o] + (b[o..] + r);
      forall i | 0 <= i < o ensures b[..o][i] != 0xD5 { MarksInSector(dos, track, sector, po, i); }
      ScanSkips(b[..o], b[o..] + r);
      ScanSector(dos, track, sector, po, r);
    } else {
      forall i | 0 <= i < |b[o..]| ensures !StartsWith((b[o..] + r)[i..], 0xD5, 0xAA, 0x96) {
        MarksInSector(dos, track, sector, po, o + i);
        DataMark(dos, track, sector, po);
      }
      ScanPasses(b[o..], r);
    }
  }

  lemma DataMark(dos: DosTrack, track: Byte, sector: nat, po: bool)
    requires sector < 16
    ensures SectorBytes(dos, track, sector, po)[62] == 0xAD
  {
    hide DataNibbles, Sum, Fm;
  }

  /** The sectors from the `n`-th on. */
  function SectorsFrom(dos: DosTrack, track: Byte, n: nat, po: bool): (r: seq<Byte>)
    requires n <= 16
    ensures |r| == FIELD * (16 - n)
    decreases 16 - n
  {
    if n == 16 then [] else SectorBytes(dos, track, n, po) + SectorsFrom(dos, track, n + 1, po)
  }

  lemma {:induction false} SectorsSplit(dos: DosTrack, track: Byte, n: nat, po: bool)
    requires n <= 16
    ensures Sectors(dos, track, 16, po) == Sectors(dos, track, n, po) + SectorsFrom(dos, track, n, po)
    decreases 16 - n
  {
    hide SectorBytes;
    if n == 16 {
    } else {
      SectorsSplit(dos, track, n + 1, po);
      var b := SectorBytes(dos, track, n, po);
      assert Sectors(dos, track, n + 1, po) == Sectors(dos, track, n, po) + b;
    }
  }

  lemma {:induction false} ScanFrom(dos: DosTrack, track: Byte, n: nat, po: bool, r: seq<Byte>)
    requires n <= 16
    ensures Scan(SectorsFrom(dos, track, n, po) + r) == AllExpected(dos, track, 16, po)[n..] + Scan(r)
    decreases 16 - n
  {
    hide Scan, SectorBytes, Expected;
    if n == 16 {
      assert SectorsFrom(dos, track, n, po) + r == r;
    } else {
      var b, rest := SectorBytes(dos, track, n, po), SectorsFrom(dos, track, n + 1, po);
      assert SectorsFrom(dos, track, n, po) + r == b + (rest + r);
      ScanSector(dos, track, n, po, rest + r);
      ScanFrom(dos, track, n + 1, po, r);
    }
  }

  /** The first sector whose address mark is still to come at position `p`. */
  function FirstWhole(p: nat): (k: nat)
    requires p < RAW_TRACK
    ensures k <= 16 && (k < 16 ==> p <= FIELD * k + 38) && (k > 0 ==> FIELD * (k - 1) + 38 < p)
  {
    if p >= FIELD * 16 then 16 else if p % FIELD <= 38 then p / FIELD else p / FIELD + 1
  }

  /** A reader that starts anywhere on the turning track finds the sectors that are still to come,
      and in the next turn all sixteen; the part of a sector that it has started in misleads it
      nowhere. */
  lemma AnyStart(dos: DosTrack, track: Byte, po: bool, p: nat)
    requires p < RAW_TRACK
    ensures var all := AllExpected(dos, track, 16, po);
            Scan(TrackBytes(dos, track, po)[p..] + TrackBytes(dos, track, po)) == all[FirstWhole(p)..] + all
  {
    hide Scan, Sectors, SectorsFrom, Expected, SectorBytes;
    var t, pad := TrackBytes(dos, track, po), Sync(RAW_TRACK - FIELD * 16);
    TrackRoundTrip(dos, track, po);
    if p >= FIELD * 16 {
      assert t[p..] == pad[p - FIELD * 16..];
      ScanSkips(t[p..], t);
    } else {
      var s, o := p / FIELD, p % FIELD;
      var b, rest := SectorBytes(dos, track, s, po), SectorsFrom(dos, track, s + 1, po);
      TailOf(dos, track, po, p);
      assert t[p..] + t == b[o..] + (rest + (pad + t));
      ScanPart(dos, track, s, po, o, rest + (pad + t));
      ScanFrom(dos, track, s + 1, po, pad + t);
      ScanSkips(pad, t);
    }
  }

  lemma TailOf(dos: DosTrack, track: Byte, po: bool, p: nat)
    requires p < FIELD * 16
    ensures TrackBytes(dos, track, po)[p..]
         == SectorBytes(dos, track, p / FIELD, po)[p % FIELD..] + SectorsFrom(dos, track, p / FIELD + 1, po)
            + Sync(RAW_TRACK - FIELD * 16)
  {
    hide SectorBytes, Sectors;
    var s := p / FIELD;
    SectorsSplit(dos, track, s, po);
    assert p == FIELD * s + p % FIELD;
  }
}
