/** Finding address marks and sectors on a track, and storing a sector's checksum. */
module FloppyTrack {
  import opened BitOps
  import opened FloppyCrc
  import opened FloppyLayout
  import opened FloppySearch

  /** What a search for sector `k + 1` finds when it begins at `from`. */
  predicate Finds(f: Found, k: nat, from: nat) {
    f.Found? && f.address.Address?
    && f.address.off == SECTOR * k + 26 && f.address.end == SECTOR * k + 32
    && (f.address.crcOk <==> from != SECTOR * k + 23 && from != SECTOR * k + 24)
    && f.marked == SECTOR * k + 66 && f.off == SECTOR * k + 70 && f.end == SECTOR * k + 326
    && f.size == 256 && f.crcOk
  }

  /** The bytes of a ring from `a` up to `b`. */
  function Cyclic(s: seq<Byte>, a: nat, b: nat): seq<Byte>
    requires a <= |s| && b <= |s|
  {
    if a <= b then s[a..b] else s[a..] + s[..b]
  }

  predicate MarkAt(i: nat) {
    i < 16 * SECTOR && Marked(i % SECTOR)
  }

  /** Where the run of marks that position `i` is in ends. */
  function RunEnd(i: nat): (e: nat)
    requires MarkAt(i)
    ensures i < e <= i + 3 && e < TRACK && !MarkAt(e)
  {
    assert i == SECTOR * (i / SECTOR) + i % SECTOR;
    var e := if i % SECTOR < 25 then 25 else 69;
    Place(i / SECTOR, e);
    SECTOR * (i / SECTOR) + e
  }

  lemma RunMarks(i: nat)
    requires MarkAt(i)
    ensures forall p :: i <= p < RunEnd(i) ==> MarkAt(p)
  {
    assert i == SECTOR * (i / SECTOR) + i % SECTOR;
    forall p | i <= p < RunEnd(i) ensures MarkAt(p) { Place(i / SECTOR, p - SECTOR * (i / SECTOR)); }
  }

  /** A run that ends in an address field is the one looked for. */
  lemma Hit(from: nat, pos: nat)
    requires from < TRACK && from <= pos <= NextAddress(from)
    requires MarkAt(pos % TRACK) && pos % TRACK % SECTOR < 25
    ensures pos == NextAddress(from)
    ensures var p := pos % TRACK; var k := NextSector(from);
            SECTOR * k + 22 <= p < SECTOR * k + 25 && RunEnd(p) == SECTOR * k + 25
            && (p == SECTOR * k + 22 <==> from != SECTOR * k + 23 && from != SECTOR * k + 24)
  {
    hide NextAddress, NextSector;
    if pos < NextAddress(from) { NoneBefore(from, pos); assert false; }
    NextAddressIs(from);
    var k := NextSector(from);
    Place(k, pos % TRACK - SECTOR * k);
  }

  /** There the search stops. */
  lemma AtNext(from: nat)
    requires from < TRACK
    ensures var p := NextAddress(from); MarkAt(p % TRACK) && p % TRACK % SECTOR < 25
  {
    hide NextAddress, NextSector;
    NextAddressIs(from);
    var k := NextSector(from);
    Place(k, NextAddress(from) % TRACK - SECTOR * k);
  }

  /** Round the end of the track, from the beginning of an address field. */
  lemma Behind(x: nat, k: nat)
    requires k < 16 && (x % TRACK == SECTOR * k + 25 || x % TRACK == (SECTOR * k + 25) % TRACK)
    ensures x % TRACK == SECTOR * k + 25
    ensures (x + 1) % TRACK == SECTOR * k + 26 && (x + 3) % TRACK == SECTOR * k + 28
    ensures (x + 7) % TRACK == SECTOR * k + 32
  {
    Small(SECTOR * k + 25, TRACK);
    ModTurn(TRACK, x, 1);
    ModTurn(TRACK, x, 3);
    ModTurn(TRACK, x, 7);
    Small(SECTOR * k + 26, TRACK);
    Small(SECTOR * k + 28, TRACK);
    Small(SECTOR * k + 32, TRACK);
  }

  lemma OnlyInMark(p: nat)
    requires !InAddressMark(p)
    ensures !(MarkAt(p % TRACK) && p % TRACK % SECTOR < 25)
  {
  }

  class Track {
    const bytes: array<Byte>
    const clocks: array<Byte>
    const length: nat
    ghost var cyl: Byte
    ghost var pages: Pages

    ghost predicate Sized() {
      length == TRACK && bytes.Length == clocks.Length == TRACK + 1024 && bytes != clocks
    }

    /** Everything before `t` is as it is to be. */
    ghost predicate Upto(t: nat)
      reads this, bytes, clocks
    {
      Sized() && t <= TRACK
      && forall i :: 0 <= i < t ==> bytes[i] == TrackByte(cyl, pages, i) && clocks[i] == ClockByte(i)
    }

    /** The track is laid out and checksummed, and holds `pages`. */
    ghost predicate Formatted()
      reads this, bytes, clocks
    {
      Upto(TRACK)
    }

    // ---------- formatting ----------

    constructor ()
      ensures Sized() && fresh(bytes) && fresh(clocks)
    {
      length := TRACK;
      bytes := new Byte[TRACK + 1024];
      clocks := new Byte[TRACK + 1024];
    }

    /** `n` equal bytes within sector `k`. */
    method Fill(t: nat, n: nat, x: Byte, c: Byte, ghost k: nat) returns (t': nat)
      requires Upto(t) && k < 16 && SECTOR * k <= t && t + n <= SECTOR * (k + 1)
      requires forall j :: t - SECTOR * k <= j < t + n - SECTOR * k ==>
                 SectorByte(cyl, k, pages[k], j) == x && c == if Marked(j) then 0xFF else 0
      modifies bytes, clocks
      ensures t' == t + n && Upto(t')
    {
      hide SectorByte, TrackByte, ClockByte, Marked;
      t' := t;
      for r := 0 to n
        invariant t' == t + r && Upto(t')
      {
        TrackAt(cyl, pages, k, t' - SECTOR * k);
        bytes[t'] := x;
        clocks[t'] := c;
        t' := t' + 1;
      }
    }

    /** The two checksum bytes of the field that began at `from`. */
    method FillCrc(from: nat, t: nat, ghost field: seq<Byte>, ghost k: nat) returns (t': nat)
      requires Upto(t) && k < 16 && SECTOR * k <= from <= t && t + 2 <= SECTOR * (k + 1)
      requires bytes[from..t] == field && !Marked(t - SECTOR * k) && !Marked(t + 1 - SECTOR * k)
      requires SectorByte(cyl, k, pages[k], t - SECTOR * k) == Crc(field) / 0x100
      requires SectorByte(cyl, k, pages[k], t + 1 - SECTOR * k) == Crc(field) % 0x100
      modifies bytes, clocks
      ensures t' == t + 2 && Upto(t')
    {
      hide SectorByte, Crc, Marked, TrackByte, ClockByte;
      var crc := MakeCrc(bytes, from, t - from);
      t' := Fill(t, 1, crc / 0x100, 0, k);
      t' := Fill(t', 1, crc % 0x100, 0, k);
    }

    /** The gap, the synchronising zeros and the address field of sector `k`. */
    method FormatId(t: nat, trk: Byte, k: nat) returns (t': nat)
      requires Upto(t) && k < 16 && t == SECTOR * k && cyl == trk
      modifies bytes, clocks
      ensures t' == t + 32 && Upto(t')
    {
      hide Upto, Crc;
      t' := Fill(t, 10, 0x4E, 0, k);
      t' := Fill(t', 12, 0, 0, k);
      var from := t';
      t' := Fill(t', 3, 0xA1, 0xFF, k);
      t' := Fill(t', 1, 0xFE, 0, k);
      t' := Fill(t', 1, trk, 0, k);
      t' := Fill(t', 1, 0, 0, k);
      t' := Fill(t', 1, k + 1, 0, k);
      t' := Fill(t', 1, 1, 0, k);
      IdWritten(t', k);
      t' := FillCrc(from, t', IdField(trk, k), k);
    }

    /** The data: zeros, but for the disk information sector. */
    method FormatPage(t: nat, trk: Byte, side: nat, k: nat, free: nat) returns (t': nat)
      requires Upto(t) && k < 16 && t == SECTOR * k + 70 && free < 0x1_0000 && pages[k] == NewPage(trk, side, k, free)
      modifies bytes, clocks
      ensures t' == t + 256 && Upto(t')
    {
      hide SectorByte, TrackByte, ClockByte, InfoPage;
      t' := t;
      for r := 0 to 256
        invariant t' == t + r && Upto(t)
        invariant forall i :: t <= i < t' ==> bytes[i] == 0 && clocks[i] == 0
      {
        bytes[t'] := 0;
        clocks[t'] := 0;
        t' := t' + 1;
      }
      if trk == 0 && side == 0 && k == 8 { WriteInfo(t' - 256, free); }
      forall i | t <= i < t' ensures bytes[i] == TrackByte(cyl, pages, i) && clocks[i] == ClockByte(i) {
        PageByte(k, i - t);
        assert bytes[i] == NewPage(trk, side, k, free)[i - t];
      }
    }

    /** The TR-DOS fields of the information sector, over the zeros. */
    method WriteInfo(sector: nat, free: nat)
      requires sector + 256 <= bytes.Length && free < 0x1_0000
      requires forall i :: sector <= i < sector + 256 ==> bytes[i] == 0
      modifies bytes
      ensures forall i :: 0 <= i < bytes.Length ==>
                bytes[i] == if sector <= i < sector + 256 then InfoPage(free)[i - sector] else old(bytes[i])
    {
      Copy(sector + 0xE1, [0, 1, 0x16, 0, free % 0x100, free / 0x100, 0x10]);
      Copy(sector + 0xF4, [0]);
      Copy(sector + 0xF5, NAME);
      Copy(sector + 0xFD, [0, 0, 0]);
    }

    lemma PageByte(k: nat, j: nat)
      requires k < 16 && j < 256
      ensures SECTOR * k + 70 + j < TRACK
      ensures TrackByte(cyl, pages, SECTOR * k + 70 + j) == pages[k][j] && ClockByte(SECTOR * k + 70 + j) == 0
    {
      hide Crc;
      TrackAt(cyl, pages, k, 70 + j);
    }

    /** The second gap, the data field and the third gap. */
    method FormatData(t: nat, trk: Byte, side: nat, k: nat, free: nat) returns (t': nat)
      requires Upto(t) && k < 16 && t == SECTOR * k + 32 && free < 0x1_0000 && pages[k] == NewPage(trk, side, k, free)
      modifies bytes, clocks
      ensures t' == t + 356 && Upto(t')
    {
      hide Upto, Crc, NewPage;
      t' := Fill(t, 22, 0x4E, 0, k);
      t' := Fill(t', 12, 0, 0, k);
      var from := t';
      t' := Fill(t', 3, 0xA1, 0xFF, k);
      t' := Fill(t', 1, 0xFB, 0, k);
      t' := FormatPage(t', trk, side, k, free);
      DataWritten(t', k);
      t' := FillCrc(from, t', DataField(pages[k]), k);
      t' := Fill(t', 60, 0x4E, 0, k);
    }

    /** `formatTRDOS` for one track. */
    method Format(trk: Byte, side: nat, free: nat)
      requires Sized() && free < 0x1_0000
      modifies this`cyl, this`pages, bytes, clocks
      ensures Formatted() && cyl == trk && pages == NewPages(trk, side, free)
    {
      hide TrackByte, ClockByte, NewPage;
      cyl, pages := trk, NewPages(trk, side, free);
      var t := 0;
      for sec := 0 to 16
        invariant t == SECTOR * sec && Upto(t) && cyl == trk && pages == NewPages(trk, side, free)
      {
        t := FormatId(t, trk, sec);
        t := FormatData(t, trk, side, sec, free);
      }
      while t < TRACK
        invariant 16 * SECTOR <= t <= TRACK && Upto(t) && cyl == trk && pages == NewPages(trk, side, free)
      {
        Tail(t);
        bytes[t] := 0x4E;
        clocks[t] := 0;
        t := t + 1;
      }
    }

    lemma Tail(t: nat)
      requires 16 * SECTOR <= t < TRACK
      ensures TrackByte(cyl, pages, t) == 0x4E && ClockByte(t) == 0
    {
    }

    // ---------- reading the layout off the buffers ----------

    lemma At(t: nat, k: nat, j: nat)
      requires Upto(t) && k < 16 && j < SECTOR && SECTOR * k + j < t
      ensures SECTOR * k + j < TRACK && bytes[SECTOR * k + j] == SectorByte(cyl, k, pages[k], j)
    {
      hide SectorByte;
      TrackAt(cyl, pages, k, j);
    }

    lemma IdWritten(t: nat, k: nat)
      requires Upto(t) && k < 16 && SECTOR * k + 30 <= t
      ensures SECTOR * k + 30 <= TRACK && bytes[SECTOR * k + 22..SECTOR * k + 30] == IdField(cyl, k)
    {
      hide Crc, IdField, TrackByte;
      forall i | 0 <= i < 8 ensures bytes[SECTOR * k + 22 + i] == IdField(cyl, k)[i] { At(t, k, 22 + i); }
    }

    lemma DataWritten(t: nat, k: nat)
      requires Upto(t) && k < 16 && SECTOR * k + 326 <= t
      ensures SECTOR * k + 326 <= TRACK && bytes[SECTOR * k + 66..SECTOR * k + 326] == DataField(pages[k])
    {
      hide Crc, TrackByte;
      forall i | 0 <= i < 260 ensures bytes[SECTOR * k + 66 + i] == DataField(pages[k])[i] { At(t, k, 66 + i); }
    }

    lemma AfterRun(i: nat)
      requires Formatted() && MarkAt(i)
      ensures bytes[RunEnd(i)] == if i % SECTOR < 25 then 0xFE else 0xFB
    {
      hide Crc, TrackByte;
      At(TRACK, i / SECTOR, if i % SECTOR < 25 then 25 else 69);
    }

    lemma IsMark(i: nat)
      requires Formatted() && i < TRACK
      ensures bytes[i] == 0xA1 && clocks[i] != 0 <==> MarkAt(i)
    {
      hide Crc;
      if MarkAt(i) { assert bytes[i] == SectorByte(cyl, i / SECTOR, pages[i / SECTOR], i % SECTOR); }
    }

    lemma IdAt(k: nat)
      requires Formatted() && k < 16
      ensures SECTOR * k + 32 <= TRACK && bytes[SECTOR * k + 22..SECTOR * k + 30] == IdField(cyl, k)
      ensures bytes[SECTOR * k + 30] == Crc(IdField(cyl, k)) / 0x100
      ensures bytes[SECTOR * k + 31] == Crc(IdField(cyl, k)) % 0x100
    {
      hide Crc, IdField, TrackByte;
      At(TRACK, k, 30);
      At(TRACK, k, 31);
      IdWritten(TRACK, k);
    }

    lemma DataAt(k: nat)
      requires Formatted() && k < 16
      ensures SECTOR * k + 328 <= TRACK && bytes[SECTOR * k + 66..SECTOR * k + 326] == DataField(pages[k])
      ensures bytes[SECTOR * k + 70..SECTOR * k + 326] == pages[k]
      ensures bytes[SECTOR * k + 326] == Crc(DataField(pages[k])) / 0x100
      ensures bytes[SECTOR * k + 327] == Crc(DataField(pages[k])) % 0x100
    {
      hide Crc, TrackByte;
      At(TRACK, k, 326);
      At(TRACK, k, 327);
      DataWritten(TRACK, k);
      forall i | 0 <= i < 256 ensures bytes[SECTOR * k + 70 + i] == pages[k][i] {
        assert bytes[SECTOR * k + 66..SECTOR * k + 326][4 + i] == DataField(pages[k])[4 + i];
      }
    }

    // ---------- searching ----------

    /** A track of any length and with anything on it. */
    ghost predicate Any() {
      0 < length < 0x1_0000 && bytes.Length == clocks.Length == length + 1024
    }

    ghost function TheRing(): (r: Ring)
      requires Any()
      reads bytes, clocks
      ensures Proper(r)
    {
      Ring(bytes[..], clocks[..], length)
    }

    /** Past the rest of a run of marks; false if the whole track is marks. */
    method SkipMarks(start: nat) returns (ok: bool, off: nat)
      requires Any() && start < length && Mark(TheRing(), start)
      ensures ok <==> Run(TheRing(), start, length) < length
      ensures ok ==> off == Marker(TheRing(), start) % length
    {
      hide Run;
      ghost var r, q := TheRing(), start + 1;
      off := (start + 1) % length;
      var rc := length;
      while bytes[off] == 0xA1 && clocks[off] != 0
        invariant start < q <= start + length + 1 && rc == length - (q - start - 1) && off == q % length
        invariant forall j :: start <= j < q ==> Mark(r, j)
        decreases rc
      {
        MarkTurn(r, q);
        if rc == 0 {
          RunIs(r, start, length, length);
          return false, off;
        }
        ModTurn(length, q, 1);
        off := (off + 1) % length;
        rc := rc - 1;
        q := q + 1;
      }
      MarkTurn(r, q);
      EndOfRun(r, start, q);
      ok := true;
    }

    /** Whether there is a mark at an offset. */
    method MarkHere(off: nat) returns (m: bool)
      requires Any() && off < length
      ensures m == Mark(TheRing(), off)
    {
      Small(off, length);
      return bytes[off] == 0xA1 && clocks[off] != 0;
    }

    /** What is at a position: whether it is a mark and, if so, where its run ends. */
    method LookAt(pos: nat) returns (mark: bool, ok: bool, e: nat)
      requires Any()
      ensures mark == Mark(TheRing(), pos)
      ensures mark ==> (ok <==> Run(TheRing(), pos, length) < length)
      ensures mark && ok ==> e == Marker(TheRing(), pos) % length
    {
      hide Run, Mark;
      ghost var r := TheRing();
      var off := pos % length;
      ok, e := true, 0;
      mark := MarkHere(off);
      MarkTurn(r, pos);
      if mark {
        ok, e := SkipMarks(off);
        MarkerTurn(r, pos);
      }
    }

    /** `FindADMark`: the first address field from a position on, around the track.  Its checksum has
        to be one of the track's own bytes. */
    method FindAddress(from: nat) returns (a: Address)
      requires Any() && from < length && FieldInBuffer(TheRing(), from)
      ensures AddressIs(TheRing(), a, from)
    {
      hide Run, Mark, First, CrcTest, AddressIs, InBuffer;
      ghost var r := TheRing();
      var pos := from;
      while pos < length + from
        invariant from <= pos <= from + length && forall j :: from <= j < pos ==> !Hits(r, j)
      {
        var mark, ok, e := LookAt(pos);
        if mark {
          if !ok {
            NoHits(r, pos, from);
            NoneThere(r, from);
            return NoAddress;
          }
          if bytes[e] == 0xFE {
            FirstIs(r, from, length, pos - from);
            a := AddressOf(pos % length, e, pos, from);
            return;
          }
        }
        pos := pos + 1;
      }
      FirstIs(r, from, length, length);
      NoneThere(r, from);
      return NoAddress;
    }

    /** The answer: where the field is, and whether its checksum is right. */
    method AddressOf(p: nat, e: nat, ghost pos: nat, ghost from: nat) returns (a: Address)
      requires Any() && from <= pos && p == pos % length && e == Marker(TheRing(), pos) % length
      requires First(TheRing(), from, length) == pos - from < length && FieldInBuffer(TheRing(), from)
      ensures AddressIs(TheRing(), a, from)
    {
      hide Run, Mark, Hits, First, Crc;
      ghost var r := TheRing();
      var off := (e + 1) % length;
      ModTurn(length, Marker(r, pos), 1);
      ModTurn(length, Marker(r, pos) + 1, 6);
      InBufferExactly(r, p, off, 4);
      var crc := MakeCrc(bytes, p, CrcLength(p, off, 4));
      assert bytes[..][p..off + 4] == bytes[p..off + 4];
      a := Address(p, off, (off + 6) % length,
                   bytes[(off + 4) % length] == crc / 0x100 && bytes[(off + 5) % length] == crc % 0x100);
    }

    /** `FindSector`: go round the address fields until the number fits or the first one comes
        round again; then take the data field behind it.  The program does not count the rounds: a
        search with as many as are counted here is one that never ends. */
    method FindSector(sect: Byte, from: nat) returns (ended: bool, f: Found)
      requires Any() && from < length && SearchInBuffer(TheRing(), from, sect)
      ensures ended <==> Ends(TheRing(), from, sect)
      ensures if ended then FoundIs(TheRing(), f, from, sect) else f.NotFound?
    {
      hide Run, Mark, Hits, First, ByteAt, CrcTest, AddressIs, DataIs, Stop, Ends, Visit, FieldInBuffer, DataInBuffer,
        Unstopped;
      ghost var r := TheRing();
      var offset: nat := from;
      var firstFind, firstPos := true, 0;
      var rounds: nat := 0;
      VisitNone(r, from);
      StartsUnstopped(r, from, sect);
      while rounds <= length
        invariant Unstopped(r, from, sect, rounds) && rounds <= length + 1
        invariant firstFind == (rounds == 0) && offset == Visit(r, from, rounds) < length
        invariant rounds > 0 ==> firstPos == Visit(r, from, 1)
      {
        assert VisitInBuffer(r, from, sect, rounds);
        var a := FindAddress(offset);
        AddressFacts(r, a, offset);
        VisitMore(r, from, rounds);
        if a.NoAddress? {
          Stops(r, from, sect, rounds);
          return true, NotFound;
        }
        if bytes[(a.off + 2) % length] == sect {
          Stops(r, from, sect, rounds);
          f := FindData(a, offset);
          return true, f;
        }
        if !firstFind {
          if a.end == firstPos {
            Stops(r, from, sect, rounds);
            return true, NotFound;
          }
        } else {
          firstPos := a.end;
          firstFind := false;
        }
        GoesOn(r, from, sect, rounds);
        offset := a.end;
        rounds := rounds + 1;
      }
      TooLong(r, from, sect, rounds);
      return false, NotFound;
    }

    /** The second half of `FindSector`. */
    method FindData(a: Address, ghost from: nat) returns (f: Found)
      requires Any() && a.Address? && AddressIs(TheRing(), a, from) && DataInBuffer(TheRing(), from)
      ensures DataIs(TheRing(), f, a)
    {
      hide Run, Mark, ToMark, CrcTest, First, InBuffer, AddressIs, DataInBuffer;
      ghost var r := TheRing();
      AddressFacts(r, a, from);
      DataFacts(r, a, from);
      var pos := a.end;
      while pos < length * 2
        invariant a.end <= pos <= 2 * length && forall j :: a.end <= j < pos ==> !Mark(r, j)
      {
        var mark, ok, e := LookAt(pos);
        if mark {
          ToMarkIs(r, a.end, 2 * length - a.end, pos - a.end);
          if !ok { return NotFound; }
          if bytes[e] < 0xF8 || bytes[e] > 0xFB { return NotFound; }
          f := DataFound(a, pos % length, e, pos);
          return;
        }
        pos := pos + 1;
      }
      ToMarkIs(r, a.end, 2 * length - a.end, 2 * length - a.end);
      return NotFound;
    }

    method DataFound(a: Address, p: nat, e: nat, ghost pos: nat) returns (f: Found)
      requires Any() && a.Address? && a.end < length && HasData(TheRing(), a.end) && pos == DataMark(TheRing(), a.end)
      requires p == pos % length && e == Marker(TheRing(), pos) % length
      requires InBuffer(TheRing(), p, (Marker(TheRing(), pos) + 1) % length, SizeOf(ByteAt(TheRing(), a.off + 3)))
      ensures DataIs(TheRing(), f, a)
    {
      hide Run, Mark, ToMark, Crc, SizeOf, HasData, DataMark;
      ghost var r := TheRing();
      var off := (e + 1) % length;
      ModTurn(length, Marker(r, pos), 1);
      var size := SizeOf(bytes[(a.off + 3) % length]);
      InBufferExactly(r, p, off, size);
      var crc := MakeCrc(bytes, p, CrcLength(p, off, size));
      assert bytes[..][p..off + size] == bytes[p..off + size];
      f := Found(a, p, off, (off + size) % length, size,
                 bytes[(off + size) % length] == crc / 0x100 && bytes[(off + size + 1) % length] == crc % 0x100);
    }

    // ---------- what a search finds on a formatted track ----------

    lemma FormattedMark(p: nat)
      requires Formatted()
      ensures Any() && (Mark(TheRing(), p) <==> MarkAt(p % TRACK))
    {
      hide TrackByte, ClockByte, MarkAt;
      IsMark(p % TRACK);
    }

    lemma FormattedRun(i: nat)
      requires Formatted() && MarkAt(i)
      ensures Any() && Run(TheRing(), i, length) == RunEnd(i) - i
      ensures Marker(TheRing(), i) == RunEnd(i)
      ensures ByteAt(TheRing(), RunEnd(i)) == if i % SECTOR < 25 then 0xFE else 0xFB
    {
      hide TrackByte, ClockByte, MarkAt, RunEnd, Run;
      RunMarks(i);
      AfterRun(i);
      Small(RunEnd(i), TRACK);
      forall j: nat | i <= j <= RunEnd(i) ensures j % TRACK == j && (Mark(TheRing(), j) <==> MarkAt(j)) {
        Small(j, TRACK);
        FormattedMark(j);
      }
      RunIs(TheRing(), i, length, RunEnd(i) - i);
    }

    lemma FormattedHits(p: nat)
      requires Formatted()
      ensures Any() && (Hits(TheRing(), p) <==> MarkAt(p % TRACK) && p % TRACK % SECTOR < 25)
    {
      hide TrackByte, ClockByte, MarkAt, RunEnd, Run, ByteAt;
      FormattedMark(p % TRACK);
      Small(p % TRACK, TRACK);
      if MarkAt(p % TRACK) { FormattedRun(p % TRACK); }
      HitsIs(TheRing(), p);
    }

    lemma FormattedFirst(from: nat)
      requires Formatted() && from < TRACK
      ensures Any() && First(TheRing(), from, length) == NextAddress(from) - from
    {
      hide TrackByte, ClockByte, MarkAt, Hits, NextAddress, NextSector;
      var d := NextAddress(from) - from;
      forall j: nat | from <= j < from + d ensures !Hits(TheRing(), j) {
        FormattedHits(j);
        NoneBefore(from, j);
        OnlyInMark(j);
      }
      FormattedHits(from + d);
      AtNext(from);
      FirstIs(TheRing(), from, length, d);
    }

    /** The first address field from a position on is the next sector's. */
    lemma FormattedAddress(from: nat)
      requires Formatted() && from < TRACK
      ensures Any() && HasAddress(TheRing(), from) && length == TRACK
      ensures var k := NextSector(from);
              AddressAt(TheRing(), from) % TRACK == SECTOR * k + 25
              && (AddressAt(TheRing(), from) + 7) % TRACK == SECTOR * k + 32
              && (AddressAt(TheRing(), from) + 1) % TRACK == SECTOR * k + 26
              && (AddressAt(TheRing(), from) + 3) % TRACK == SECTOR * k + 28
    {
      hide TrackByte, ClockByte, MarkAt, Hits, NextAddress, NextSector, Run, Mark, RunEnd, First;
      FormattedFirst(from);
      AtNext(from);
      var p := NextAddress(from);
      Hit(from, p);
      FormattedRun(p % TRACK);
      MarkerTurn(TheRing(), p);
      Behind(AddressAt(TheRing(), from), NextSector(from));
    }

    /** The checksum test of an address field passes if it begins at the first mark byte. */
    lemma IdChecked(k: nat, p: nat)
      requires Formatted() && k < 16 && SECTOR * k + 22 <= p < SECTOR * k + 25
      ensures SECTOR * k + 32 <= TRACK == length && bytes.Length == TRACK + 1024
      ensures var crc := Crc(bytes[p..SECTOR * k + 30]);
              bytes[SECTOR * k + 30] == crc / 0x100 && bytes[SECTOR * k + 31] == crc % 0x100 <==> p == SECTOR * k + 22
    {
      hide Crc, TrackByte, ClockByte;
      IdAt(k);
      var d := p - (SECTOR * k + 22);
      assert bytes[SECTOR * k + 22..SECTOR * k + 30][d..] == bytes[p..SECTOR * k + 30];
      if d > 0 { LateStart(IdField(cyl, k), d); }
      assert IdField(cyl, k)[0..] == IdField(cyl, k);
    }

    lemma FormattedIs(a: Address, from: nat)
      requires Formatted() && from < TRACK && Any() && AddressIs(TheRing(), a, from)
      ensures var k := NextSector(from);
              a == Address(NextAddress(from) % TRACK, SECTOR * k + 26, SECTOR * k + 32,
                           from != SECTOR * k + 23 && from != SECTOR * k + 24)
    {
      hide TrackByte, ClockByte, MarkAt, Hits, First, NextAddress, NextSector, Run, Mark, Crc;
      FormattedAddress(from);
      FormattedFirst(from);
      AtNext(from);
      Hit(from, NextAddress(from));
      var k := NextSector(from);
      IdChecked(k, a.marked);
      assert bytes[..][a.marked..SECTOR * k + 30] == bytes[a.marked..SECTOR * k + 30];
      Small(SECTOR * k + 30, TRACK);
      Small(SECTOR * k + 31, TRACK);
    }

    lemma FormattedNumber(from: nat)
      requires Formatted() && from < TRACK
      ensures Any() && HasAddress(TheRing(), from) && Number(TheRing(), from) == NextSector(from) + 1
    {
      hide TrackByte, ClockByte, NextAddress, NextSector, First, Mark, AddressAt, HasAddress;
      FormattedAddress(from);
      IdNumber(NextSector(from));
    }

    lemma IdNumber(k: nat)
      requires Formatted() && k < 16
      ensures length == TRACK && bytes.Length >= TRACK && SECTOR * k + 32 < TRACK
      ensures bytes[SECTOR * k + 28] == k + 1 && bytes[SECTOR * k + 29] == 1
    {
      hide Crc, TrackByte, ClockByte;
      At(TRACK, k, 28);
      At(TRACK, k, 29);
    }

    /** The search goes from sector to sector. */
    lemma {:induction false} FormattedVisit(from: nat, n: nat)
      requires Formatted() && from < TRACK && n <= 17
      ensures Any() && Searching(from, Visit(TheRing(), from, n), n) && Visit(TheRing(), from, n) < TRACK
    {
      hide Formatted, NextAddress, NextSector, HasAddress, Around, Visit, AddressAt;
      if n == 0 {
        FormattedAddress(from);
        VisitNone(TheRing(), from);
      } else {
        FormattedVisit(from, n - 1);
        VisitMore(TheRing(), from, n - 1);
        Round(from, Visit(TheRing(), from, n - 1), n - 1);
        FormattedAddress(Visit(TheRing(), from, n - 1));
      }
    }

    lemma FormattedTurn(from: nat, n: nat)
      requires Formatted() && from < TRACK && n <= 16
      ensures Any() && var o := Visit(TheRing(), from, n); var k := Around(NextSector(from), n);
              HasAddress(TheRing(), o) && Number(TheRing(), o) == k + 1 && NextSector(o) == k && o < TRACK
              && (n > 0 && Visit(TheRing(), from, n + 1) == Visit(TheRing(), from, 1) <==> n == 16)
              && (n < 16 ==> (o == SECTOR * k + 23 || o == SECTOR * k + 24
                              <==> from == SECTOR * k + 23 || from == SECTOR * k + 24))
    {
      hide Formatted, NextAddress, NextSector, HasAddress, Number, Visit, Around;
      FormattedVisit(from, n);
      FormattedVisit(from, n + 1);
      FormattedVisit(from, 1);
      Round(from, Visit(TheRing(), from, n), n);
      Rounds(NextSector(from), n);
      FormattedNumber(Visit(TheRing(), from, n));
    }

    /** Every search comes to an end. */
    lemma FormattedEnds(from: nat, sect: Byte)
      requires Formatted() && from < TRACK
      ensures Any() && Ends(TheRing(), from, sect) && Stop(TheRing(), from, sect) <= 16
    {
      hide Formatted, NextSector, HasAddress, Number, Visit, Around;
      FormattedTurn(from, 16);
      assert EndsAt(TheRing(), from, sect, 16);
    }

    /** And all its checksums can be taken. */
    lemma FormattedInBuffer(from: nat, sect: Byte)
      requires Formatted() && from < TRACK
      ensures Any() && SearchInBuffer(TheRing(), from, sect)
    {
      hide Formatted, Visit, Unstopped, FieldInBuffer, DataInBuffer, HasAddress, Number;
      FormattedAddress(from);
      VisitsBounded(TheRing(), from);
      VisitNone(TheRing(), from);
      forall n: nat ensures VisitInBuffer(TheRing(), from, sect, n) {
        FormattedFieldInBuffer(Visit(TheRing(), from, n));
      }
    }

    lemma FormattedFieldInBuffer(from: nat)
      requires Formatted() && from < TRACK
      ensures Any() && HasAddress(TheRing(), from) && FieldInBuffer(TheRing(), from) && DataInBuffer(TheRing(), from)
    {
      hide TrackByte, ClockByte, MarkAt, Hits, First, NextAddress, NextSector, Run, Mark, Marker, RunEnd, SizeOf,
        DataMark, HasData, AddressAt, HasAddress;
      FormattedAddress(from);
      FormattedFirst(from);
      AtNext(from);
      Hit(from, NextAddress(from));
      var k := NextSector(from);
      FormattedDataMark(k);
      IdNumber(k);
      Small(SECTOR * k + 29, TRACK);
      Small(SECTOR * k + 66, TRACK);
      Small(SECTOR * k + 70, TRACK);
    }

    /** And it finds the sector, if there is one. */
    lemma FormattedFinds(f: Found, from: nat, sect: Byte)
      requires Formatted() && from < TRACK && Any() && Ends(TheRing(), from, sect) && FoundIs(TheRing(), f, from, sect)
      ensures if 1 <= sect <= 16 then Finds(f, sect - 1, from) else f.NotFound?
    {
      hide Formatted, NextSector, HasAddress, Number, Visit, Around, AddressIs, DataIs, Stop;
      FormattedEnds(from, sect);
      var n := Stop(TheRing(), from, sect);
      FormattedTurn(from, n);
      var o := Visit(TheRing(), from, n);
      if Number(TheRing(), o) == sect {
        if n == 16 { Again(from, sect); }
        var a := TheAddress(TheRing(), f, from, sect);
        FormattedIs(a, o);
        FormattedData(f, a, sect - 1);
      } else {
        NeverThere(from, sect);
      }
    }

    lemma Again(from: nat, sect: Byte)
      requires Formatted() && from < TRACK && Any() && Ends(TheRing(), from, sect) && Stop(TheRing(), from, sect) == 16
      ensures Around(NextSector(from), 16) + 1 != sect
    {
      hide Formatted, NextSector, Visit, HasAddress, Number;
      FormattedTurn(from, 0);
      Rounds(NextSector(from), 0);
      assert !EndsAt(TheRing(), from, sect, 0);
    }

    lemma NeverThere(from: nat, sect: Byte)
      requires Formatted() && from < TRACK && Any() && Ends(TheRing(), from, sect) && Stop(TheRing(), from, sect) == 16
      ensures !(1 <= sect <= 16)
    {
      hide Formatted, NextSector, Visit, HasAddress, Number, Around;
      forall m: nat | m < 16 ensures Around(NextSector(from), m) + 1 != sect {
        FormattedTurn(from, m);
        assert !EndsAt(TheRing(), from, sect, m);
      }
      if 1 <= sect <= 16 { ComesPast(NextSector(from), sect - 1); }
    }

    /** Behind an address field is its sector's data field, with the right checksum. */
    lemma FormattedData(f: Found, a: Address, k: nat)
      requires Formatted() && k < 16 && a.Address? && a.off == SECTOR * k + 26 && a.end == SECTOR * k + 32
      requires Any() && DataIs(TheRing(), f, a)
      ensures f == Found(a, SECTOR * k + 66, SECTOR * k + 70, SECTOR * k + 326, 256, true)
    {
      hide TrackByte, ClockByte, Crc, Marker, Mark, DataField, SizeOf, DataMark, HasData;
      FormattedDataMark(k);
      IdNumber(k);
      DataAt(k);
      Small(SECTOR * k + 66, TRACK);
      Small(SECTOR * k + 70, TRACK);
      Small(SECTOR * k + 29, TRACK);
      Small(SECTOR * k + 326, TRACK);
      Small(SECTOR * k + 327, TRACK);
      assert bytes[..][SECTOR * k + 66..SECTOR * k + 326] == bytes[SECTOR * k + 66..SECTOR * k + 326];
    }

    lemma FormattedDataMark(k: nat)
      requires Formatted() && k < 16
      ensures Any() && SECTOR * k + 70 < TRACK && DataMark(TheRing(), SECTOR * k + 32) == SECTOR * k + 66
      ensures HasData(TheRing(), SECTOR * k + 32) && Marker(TheRing(), SECTOR * k + 66) == SECTOR * k + 69
    {
      hide TrackByte, ClockByte, MarkAt, RunEnd, Run, Mark;
      forall j: nat | SECTOR * k + 32 <= j <= SECTOR * k + 66
        ensures j < TRACK && (Mark(TheRing(), j) <==> j == SECTOR * k + 66)
      {
        DataMarkAt(k, j);
        Small(j, TRACK);
        FormattedMark(j);
      }
      ToMarkIs(TheRing(), SECTOR * k + 32, 2 * length - (SECTOR * k + 32), 34);
      DataMarkAt(k, SECTOR * k + 66);
      FormattedRun(SECTOR * k + 66);
    }

    // ---------- writing ----------

    /** `ApplySectorCRC`: the checksum of the bytes from the marks to the end of the data, around
        the end of the track if need be, goes into the two bytes that follow. */
    method ApplySectorCrc(marked: nat, end: nat)
      requires marked < length <= bytes.Length && end < length
      modifies bytes
      ensures var crc := Crc(Cyclic(old(bytes[..length]), marked, end));
              bytes[..] == old(bytes[..])[end := crc / 0x100][(end + 1) % length := crc % 0x100]
    {
      hide Crc, Cyclic;
      var crc, at := SectorCrc(marked, end);
      bytes[at] := crc / 0x100;
      bytes[(at + 1) % length] := crc % 0x100;
    }

    /** The first half of it: the checksum, and where it goes. */
    method SectorCrc(marked: nat, end: nat) returns (crc: Word, at: nat)
      requires marked < length <= bytes.Length && end < length
      ensures crc == Crc(Cyclic(bytes[..length], marked, end)) && at == end
    {
      hide CrcFrom, Cyclic;
      var len := if end < marked then length - marked + end else end - marked;
      var len1 := length - marked;
      if len1 > len { len1 := len; }
      var len2 := 0;
      if len1 < len { len2 := len - len1; }
      crc := CrcLoop(bytes, marked, len1, 0xFFFF);
      crc := CrcLoop(bytes, 0, len2, crc);
      TwoPieces(bytes[..], length, marked, end, len1, len2);
      assert bytes[..][marked..marked + len1] == bytes[marked..marked + len1];
      assert bytes[..][0..len2] == bytes[0..0 + len2];
      assert bytes[..][..length] == bytes[..length];
      at := if len2 > 0 then len2 % length else (marked + len1) % length;
      Turned(end, length);
    }

    /** Copying bytes into the track. */
    method Copy(at: nat, data: seq<Byte>)
      requires at + |data| <= bytes.Length
      modifies bytes
      ensures forall i :: 0 <= i < bytes.Length ==>
                bytes[i] == if at <= i < at + |data| then data[i - at] else old(bytes[i])
    {
      for i := 0 to |data|
        invariant forall j :: 0 <= j < bytes.Length ==>
                    bytes[j] == if at <= j < at + i then data[j - at] else old(bytes[j])
      {
        bytes[at + i] := data[i];
      }
    }

    /** The write that every loader makes: find the sector, copy into it, store the checksum. */
    method WriteSector(sect: Byte, at: nat, data: seq<Byte>) returns (ok: bool)
      requires Formatted() && at + |data| <= 256
      modifies this`pages, bytes
      ensures Formatted() && (ok <==> 1 <= sect <= 16)
      ensures pages == if ok then old(pages)[sect - 1 := Overlay(old(pages)[sect - 1], at, data)] else old(pages)
      ensures forall i :: 0 <= i < bytes.Length && !(ok && SECTOR * (sect - 1) + 70 <= i < SECTOR * (sect - 1) + 328)
                ==> bytes[i] == old(bytes[i])
    {
      hide Formatted, Overlay, FoundIs, Stop, Ends;
      FormattedEnds(0, sect);
      FormattedInBuffer(0, sect);
      var ended, f := FindSector(sect, 0);
      FormattedFinds(f, 0, sect);
      ok := f.Found?;
      if ok {
        CopyInto(f.off, sect - 1, at, data);
        StoreCrc(f, sect - 1, Overlay(pages[sect - 1], at, data));
      }
    }

    method CopyInto(off: nat, ghost k: nat, at: nat, data: seq<Byte>)
      requires Formatted() && k < 16 && off == SECTOR * k + 70 && at + |data| <= 256
      modifies bytes
      ensures Torn(k, Overlay(pages[k], at, data))
      ensures forall i :: 0 <= i < bytes.Length && !(SECTOR * k + 70 <= i < SECTOR * k + 326) ==>
                bytes[i] == old(bytes[i])
    {
      hide TrackByte, ClockByte, Crc;
      ghost var page := Overlay(pages[k], at, data);
      DataAt(k);
      FieldAt(k);
      Copy(off + at, data);
      forall i | 0 <= i < 260 ensures bytes[SECTOR * k + 66 + i] == DataField(page)[i] {
        if i >= 4 { assert old(bytes[SECTOR * k + 70..SECTOR * k + 326])[i - 4] == pages[k][i - 4]; }
      }
      assert bytes[SECTOR * k + 66..SECTOR * k + 326] == DataField(page);
    }

    /** Formatted but for sector `k`, whose new page does not have its checksum yet. */
    ghost predicate Torn(k: nat, page: Page)
      requires k < 16
      reads this, bytes, clocks
    {
      Sized() && SECTOR * k + 328 <= TRACK && bytes[SECTOR * k + 66..SECTOR * k + 326] == DataField(page)
      && (forall i :: 0 <= i < TRACK ==> clocks[i] == ClockByte(i))
      && (forall i :: 0 <= i < TRACK && !(SECTOR * k + 70 <= i < SECTOR * k + 328) ==>
            bytes[i] == TrackByte(cyl, pages, i))
    }

    method StoreCrc(f: Found, ghost k: nat, ghost page: Page)
      requires k < 16 && f.Found? && f.marked == SECTOR * k + 66 && f.end == SECTOR * k + 326 && Torn(k, page)
      modifies this`pages, bytes
      ensures Formatted() && pages == old(pages)[k := page]
      ensures forall i :: 0 <= i < bytes.Length && i != SECTOR * k + 326 && i != SECTOR * k + 327 ==>
                bytes[i] == old(bytes[i])
    {
      hide TrackByte, ClockByte, Crc;
      ghost var t := bytes[..];
      assert Cyclic(bytes[..length], f.marked, f.end) == t[SECTOR * k + 66..SECTOR * k + 326];
      ApplySectorCrc(f.marked, f.end);
      ghost var crc := Crc(DataField(page));
      assert bytes[..] == t[SECTOR * k + 326 := crc / 0x100][SECTOR * k + 327 := crc % 0x100];
      forall i | 0 <= i < TRACK ensures bytes[i] == TrackByte(cyl, pages[k := page], i) {
        assert bytes[i] == bytes[..][i];
        OnePage(cyl, pages, k, page, i);
        if SECTOR * k + 70 <= i < SECTOR * k + 326 {
          assert t[SECTOR * k + 66..SECTOR * k + 326][i - SECTOR * k - 66] == t[i];
        }
      }
      pages := pages[k := page];
    }

    lemma FieldAt(k: nat)
      requires Formatted() && k < 16
      ensures SECTOR * k + 328 <= TRACK
      ensures forall i :: 0 <= i < 4 ==> bytes[SECTOR * k + 66 + i] == DataField(pages[k])[i]
    {
      hide Crc, TrackByte;
      forall i | 0 <= i < 4 ensures bytes[SECTOR * k + 66 + i] == DataField(pages[k])[i] { At(TRACK, k, 66 + i); }
    }

    /** Reading a sector back, as the image writer does: 256 bytes from where its data begins. */
    method ReadSector(sect: Byte, from: nat) returns (ended: bool, f: Found, data: seq<Byte>)
      requires Any() && from < length && SearchInBuffer(TheRing(), from, sect)
      ensures ended <==> Ends(TheRing(), from, sect)
      ensures if ended then FoundIs(TheRing(), f, from, sect) else f.NotFound?
      ensures if f.Found? then f.off < length && data == bytes[f.off..f.off + 256] else data == []
    {
      hide FoundIs, Stop, Ends, Run;
      ended, f := FindSector(sect, from);
      if ended { FoundWhere(TheRing(), f, from, sect); }
      data := [];
      if f.Found? { data := bytes[f.off..f.off + 256]; }
    }

    /** On a formatted track it is the page that the track holds. */
    lemma FormattedPage(f: Found, from: nat, sect: Byte)
      requires Formatted() && from < TRACK && Any() && Ends(TheRing(), from, sect) && FoundIs(TheRing(), f, from, sect)
      requires f.Found?
      ensures 1 <= sect <= 16 && f.off + 256 <= bytes.Length && bytes[f.off..f.off + 256] == pages[sect - 1]
    {
      hide FoundIs, Stop, Ends, Run, TrackByte, ClockByte;
      FormattedFinds(f, from, sect);
      if 1 <= sect <= 16 { DataAt(sect - 1); }
    }
  }

  /** The checksum of a stretch of the ring, taken in two pieces. */
  lemma TwoPieces(t: seq<Byte>, length: nat, marked: nat, end: nat, len1: nat, len2: nat)
    requires marked < length <= |t| && end < length
    requires if end < marked then len1 == length - marked && len2 == end else len1 == end - marked && len2 == 0
    ensures CrcFrom(Crc(t[marked..marked + len1]), t[0..len2]) == Crc(Cyclic(t[..length], marked, end))
  {
    hide CrcFrom, CrcByte;
    CrcAppend(0xFFFF, t[marked..marked + len1], t[0..len2]);
    assert t[marked..marked + len1] + t[0..len2] == Cyclic(t[..length], marked, end);
  }

  lemma Turned(x: nat, n: nat)
    requires x < n
    ensures x % n == x && n % n == 0
  {
  }

  /** The sector `m` places further round. */
  function Around(k: nat, m: nat): (r: nat)
    requires k < 16 && m <= 16
    ensures r < 16
  {
    if k + m < 16 then k + m else k + m - 16
  }

  /** Where the search stands after `n` address fields. */
  predicate Searching(from: nat, offset: nat, n: nat)
    requires from < TRACK && n <= 17
  {
    offset == if n == 0 then from else SECTOR * Around(NextSector(from), n - 1) + 32
  }

  lemma Rounds(k: nat, n: nat)
    requires k < 16 && n <= 16
    ensures Around(k, 0) == k && Around(k, 16) == k
    ensures Around(k, n) == k <==> n == 0 || n == 16
    ensures n > 0 ==> Around(k, n) == if Around(k, n - 1) == 15 then 0 else Around(k, n - 1) + 1
  {
  }

  /** What the next turn looks at, and which turn is the last. */
  lemma Round(from: nat, offset: nat, n: nat)
    requires from < TRACK && offset < TRACK && n <= 16 && Searching(from, offset, n)
    ensures var k := Around(NextSector(from), n);
            NextSector(offset) == k && (k == NextSector(from) <==> n == 0 || n == 16)
            && (n == 16 ==> k == Around(NextSector(from), 0)) && Searching(from, SECTOR * k + 32, n + 1)
            && (n < 16 ==> (offset == SECTOR * k + 23 || offset == SECTOR * k + 24
                            <==> from == SECTOR * k + 23 || from == SECTOR * k + 24))
  {
    hide NextSector, NextAddress, Around;
    var k := Around(NextSector(from), n);
    Rounds(NextSector(from), n);
    if from == SECTOR * k + 23 || from == SECTOR * k + 24 { FromInside(from, k); }
    if n > 0 { AfterField(Around(NextSector(from), n - 1)); }
  }

  lemma DataMarkAt(k: nat, off: nat)
    requires k < 16 && SECTOR * k + 32 <= off <= SECTOR * k + 66
    ensures off < TRACK && (MarkAt(off) <==> off == SECTOR * k + 66)
    ensures off == SECTOR * k + 66 ==> RunEnd(off) == SECTOR * k + 69 && off % SECTOR >= 25
  {
    Place(k, off - SECTOR * k);
  }

  /** Once round comes past every sector. */
  lemma ComesPast(k0: nat, k: nat)
    requires k0 < 16 && k < 16
    ensures exists m :: 0 <= m < 16 && Around(k0, m) == k
  {
    assert Around(k0, if k < k0 then k + 16 - k0 else k - k0) == k;
  }

  lemma FromInside(from: nat, k: nat)
    requires from < TRACK && k < 16 && (from == SECTOR * k + 23 || from == SECTOR * k + 24)
    ensures NextSector(from) == k == Around(k, 0)
  {
    Place(k, from - SECTOR * k);
  }
}
