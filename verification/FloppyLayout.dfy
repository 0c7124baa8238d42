/** A TR-DOS track as a value: sixteen sectors of marks, fields, gaps and checksums. */
module FloppyLayout {
  import opened BitOps
  import opened FloppyCrc

  const TRACK: nat := 6250
  const SECTOR: nat := 388

  type Pages = s: seq<Page> | |s| == 16 witness seq<Page>(16, _ => Blank())

  function Blank(): (p: Page)
    ensures forall i :: 0 <= i < 256 ==> p[i] == 0
  {
    seq(256, _ => 0)
  }

  // ---------- what a formatted track holds ----------

  function IdField(cyl: Byte, k: nat): (s: seq<Byte>)
    requires k < 16
    ensures |s| == 8
  {
    [0xA1, 0xA1, 0xA1, 0xFE, cyl, 0, k + 1, 1]
  }

  function DataField(page: Page): (s: seq<Byte>)
    ensures |s| == 260
  {
    [0xA1, 0xA1, 0xA1, 0xFB] + page
  }

  /** Byte `j` of sector `k`. */
  function SectorByte(cyl: Byte, k: nat, page: Page, j: nat): Byte
    requires k < 16 && j < SECTOR
  {
    if j < 10 then 0x4E
    else if j < 22 then 0
    else if j < 30 then IdField(cyl, k)[j - 22]
    else if j == 30 then Crc(IdField(cyl, k)) / 0x100
    else if j == 31 then Crc(IdField(cyl, k)) % 0x100
    else if j < 54 then 0x4E
    else if j < 66 then 0
    else if j < 326 then DataField(page)[j - 66]
    else if j == 326 then Crc(DataField(page)) / 0x100
    else if j == 327 then Crc(DataField(page)) % 0x100
    else 0x4E
  }

  /** Where the clock bits are missing, as they are only in a mark. */
  predicate Marked(j: nat) {
    22 <= j < 25 || 66 <= j < 69
  }

  function TrackByte(cyl: Byte, pages: Pages, i: nat): Byte
    requires i < TRACK
  {
    if i < 16 * SECTOR then SectorByte(cyl, i / SECTOR, pages[i / SECTOR], i % SECTOR) else 0x4E
  }

  function ClockByte(i: nat): Byte {
    if i < 16 * SECTOR && Marked(i % SECTOR) then 0xFF else 0
  }

  lemma Place(k: nat, j: nat)
    requires j < SECTOR
    ensures (SECTOR * k + j) / SECTOR == k && (SECTOR * k + j) % SECTOR == j
  {
  }

  lemma TrackAt(cyl: Byte, pages: Pages, k: nat, j: nat)
    requires k < 16 && j < SECTOR
    ensures TrackByte(cyl, pages, SECTOR * k + j) == SectorByte(cyl, k, pages[k], j)
    ensures ClockByte(SECTOR * k + j) == if Marked(j) then 0xFF else 0
  {
    hide SectorByte;
    Place(k, j);
  }

  // ---------- the search order ----------

  /** The first position from `from` on, running on into the next turn, at which a run of marks
      ends in an address field. */
  function NextAddress(from: nat): (p: nat)
    requires from < TRACK
    ensures from <= p < from + TRACK
  {
    if from >= 15 * SECTOR + 25 then TRACK + 22
    else
      var b := from - from % SECTOR;
      if from % SECTOR <= 22 then b + 22 else if from % SECTOR < 25 then from else b + SECTOR + 22
  }

  /** The sector whose address field that is. */
  function NextSector(from: nat): (k: nat)
    requires from < TRACK
    ensures k < 16
  {
    if from >= 15 * SECTOR + 25 then 0 else if from % SECTOR < 25 then from / SECTOR else from / SECTOR + 1
  }

  predicate InAddressMark(p: nat) {
    p % TRACK < 16 * SECTOR && 22 <= p % TRACK % SECTOR < 25
  }

  lemma NextAddressIs(from: nat)
    requires from < TRACK
    ensures var p := NextAddress(from) % TRACK; var k := NextSector(from);
            SECTOR * k + 22 <= p < SECTOR * k + 25
            && (p != SECTOR * k + 22 <==> from == SECTOR * k + 23 || from == SECTOR * k + 24)
            && (p != SECTOR * k + 22 ==> p == from)
  {
    assert from == SECTOR * (from / SECTOR) + from % SECTOR;
  }

  lemma NoneBefore(from: nat, p: nat)
    requires from < TRACK && from <= p < NextAddress(from)
    ensures !InAddressMark(p)
  {
    if p < TRACK {
      OnTrack(from / SECTOR, from % SECTOR, p / SECTOR, p % SECTOR);
    } else {
      assert p % TRACK == p - TRACK;
    }
  }

  lemma OnTrack(k: nat, j: nat, k': nat, j': nat)
    requires j < SECTOR && j' < SECTOR && SECTOR * k + j <= SECTOR * k' + j' < TRACK
    requires k < 15 || (k == 15 && j < 25) ==>
               SECTOR * k' + j'
               < if j <= 22 then SECTOR * k + 22 else if j < 25 then SECTOR * k + j else SECTOR * (k + 1) + 22
    ensures k' < 16 ==> !(22 <= j' < 25)
  {
    if k' > k + 1 { assert SECTOR * k' >= SECTOR * (k + 2); }
  }

  /** After the address field of a sector comes the next sector's. */
  lemma AfterField(k: nat)
    requires k < 16
    ensures var from, next := SECTOR * k + 32, if k == 15 then 0 else k + 1;
            NextSector(from) == next && NextAddress(from) % TRACK == SECTOR * next + 22
  {
    Place(k, 32);
  }

  // ---------- changing one page ----------

  /** A page with `data` copied into it. */
  function Overlay(page: Page, at: nat, data: seq<Byte>): (p: Page)
    requires at + |data| <= 256
    ensures forall i :: 0 <= i < 256 ==> p[i] == if at <= i < at + |data| then data[i - at] else page[i]
  {
    page[..at] + data + page[at + |data|..]
  }

  /** Another page in sector `k` shows only in the sector's data and its checksum. */
  lemma OnePage(cyl: Byte, pages: Pages, k: nat, page: Page, i: nat)
    requires k < 16 && i < TRACK
    ensures i < SECTOR * k + 70 || i >= SECTOR * k + 328 ==>
              TrackByte(cyl, pages[k := page], i) == TrackByte(cyl, pages, i)
    ensures SECTOR * k + 70 <= i < SECTOR * k + 326 ==> TrackByte(cyl, pages[k := page], i) == page[i - SECTOR * k - 70]
    ensures i == SECTOR * k + 326 ==> TrackByte(cyl, pages[k := page], i) == Crc(DataField(page)) / 0x100
    ensures i == SECTOR * k + 327 ==> TrackByte(cyl, pages[k := page], i) == Crc(DataField(page)) % 0x100
  {
    hide Crc;
    if SECTOR * k <= i < SECTOR * (k + 1) {
      Place(k, i - SECTOR * k);
    } else {
      assert i == SECTOR * (i / SECTOR) + i % SECTOR;
      if i / SECTOR == k { assert false; }
    }
  }

  // ---------- a new disk ----------

  /** The disk information sector of an empty disk. */
  function InfoPage(free: nat): Page
    requires free < 0x1_0000
  {
    Overlay(Overlay(Blank(), 0xE1, [0, 1, 0x16, 0, free % 0x100, free / 0x100, 0x10]), 0xF5, NAME)
  }

  /** "MiSTer" and two spaces. */
  const NAME: seq<Byte> := [77, 105, 83, 84, 101, 114, 32, 32]

  /** The page that formatting puts into a sector. */
  function NewPage(trk: nat, side: nat, k: nat, free: nat): Page
    requires free < 0x1_0000
  {
    if trk == 0 && side == 0 && k == 8 then InfoPage(free) else Blank()
  }

  function NewPages(trk: nat, side: nat, free: nat): (p: Pages)
    requires free < 0x1_0000
    ensures forall k :: 0 <= k < 16 ==> p[k] == NewPage(trk, side, k, free)
  {
    seq(16, k requires 0 <= k < 16 => NewPage(trk, side, k, free))
  }
}
