/** A TR-DOS disk of two sides: its tracks in the order in which the image holds them. */
module FloppyDisk {
  import opened BitOps
  import opened FloppyCrc
  import opened FloppyLayout
  import opened FloppySearch
  import opened FloppyTrack

  /** The pages of a disk, by track (both sides counted) and sector. */
  type Image = seq<Pages>

  /** The number of free sectors of an empty disk of `n` tracks, in sixteen bits. */
  function FreeOf(n: nat): (f: nat)
    ensures f < 0x1_0000
  {
    (16 * n + 0x1_0000 - 16) % 0x1_0000
  }

  /** What a freshly formatted disk of `n` tracks, counting sides, holds. */
  function NewImage(n: nat): (image: Image)
    ensures |image| == n && forall t :: 0 <= t < n ==> image[t] == NewPages(t / 2, t % 2, FreeOf(n))
  {
    seq(n, t requires 0 <= t < n => NewPages(t / 2, t % 2, FreeOf(n)))
  }

  /** An image with `data` copied into one sector. */
  function Stored(image: Image, t: nat, k: nat, at: nat, data: seq<Byte>): (r: Image)
    requires t < |image| && k < 16 && at + |data| <= 256
    ensures |r| == |image|
  {
    image[t := image[t][k := Overlay(image[t][k], at, data)]]
  }

  /** The image file: every sector's bytes, track by track. */
  function FlatPages(pages: seq<Page>): (s: seq<Byte>)
    ensures |s| == 256 * |pages|
  {
    if pages == [] then [] else FlatPages(pages[..|pages| - 1]) + pages[|pages| - 1]
  }

  function Flat(image: Image): (s: seq<Byte>)
    ensures |s| == 4096 * |image|
  {
    if image == [] then [] else Flat(image[..|image| - 1]) + FlatPages(image[|image| - 1])
  }

  /** The text that stands for a sector that cannot be found. */
  function NullPage(): Page {
    Overlay(Stars(), 0, NOT_FOUND)
  }

  function NullPages(): Pages {
    seq(16, _ => NullPage())
  }

  function NullImage(n: nat): (image: Image)
    ensures |image| == n && forall t :: 0 <= t < n ==> image[t] == NullPages()
  {
    seq(n, _ => NullPages())
  }

  lemma FlatNone()
    ensures Flat([]) == []
  {
  }

  lemma FlatMore(image: Image, i: nat)
    requires i < |image|
    ensures Flat(image[..i + 1]) == Flat(image[..i]) + FlatPages(image[i])
  {
    hide FlatPages;
    assert image[..i + 1][..i] == image[..i];
  }

  function Stars(): Page {
    seq(256, _ => 42)
  }

  const NOT_FOUND: seq<Byte> := Codes("ERROR: THIS SECTOR NOT FOUND OR IN NON TR-DOS FORMAT!") + [0]

  /** The codes of a text's characters. */
  function Codes(text: string): (s: seq<Byte>)
    ensures |s| == |text|
  {
    seq(|text|, i requires 0 <= i < |text| => text[i] as int % 256)
  }

  // ---------- many writes ----------

  datatype Write = Write(t: nat, k: nat, at: nat, data: seq<Byte>)

  predicate InRange(w: Write, n: nat) {
    w.t < n && w.k < 16 && w.at + |w.data| <= 256
  }

  /** What a sequence of writes leaves behind. */
  function StoredAll(image: Image, ws: seq<Write>): (r: Image)
    requires forall i :: 0 <= i < |ws| ==> InRange(ws[i], |image|)
    ensures |r| == |image|
  {
    if ws == [] then image
    else
      var w := ws[|ws| - 1];
      assert InRange(w, |image|);
      Stored(StoredAll(image, ws[..|ws| - 1]), w.t, w.k, w.at, w.data)
  }

  predicate Covers(w: Write, t: nat, k: nat, b: nat) {
    w.t == t && w.k == k && w.at <= b < w.at + |w.data|
  }

  /** Each byte of the disk is what the last write to it stored, or what was there before. */
  lemma {:induction false} LastWrite(image: Image, ws: seq<Write>, t: nat, k: nat, b: nat, i: nat)
    requires forall i :: 0 <= i < |ws| ==> InRange(ws[i], |image|)
    requires t < |image| && k < 16 && b < 256 && i <= |ws|
    requires forall j :: i <= j < |ws| ==> !Covers(ws[j], t, k, b)
    requires i > 0 ==> Covers(ws[i - 1], t, k, b)
    ensures StoredAll(image, ws)[t][k][b] == if i == 0 then image[t][k][b] else ws[i - 1].data[b - ws[i - 1].at]
  {
    hide Overlay;
    if |ws| == 0 {
    } else {
      var w := ws[|ws| - 1];
      if i < |ws| { LastWrite(image, ws[..|ws| - 1], t, k, b, i); }
    }
  }

  ghost predicate Separate(a: Track, b: Track) {
    a != b && a.bytes != b.bytes && a.bytes != b.clocks && a.clocks != b.bytes && a.clocks != b.clocks
  }

  class Disk {
    var present: bool
    var maxTrack: nat
    var tracks: seq<Track>
    ghost var image: Image

    /** Everything the disk owns. */
    ghost function Objects(): set<object>
      reads this`tracks
    {
      (set i | 0 <= i < |tracks| :: tracks[i]) + (set i | 0 <= i < |tracks| :: tracks[i].bytes)
      + (set i | 0 <= i < |tracks| :: tracks[i].clocks)
    }

    ghost predicate Apart()
      reads this`tracks
    {
      forall i, j :: 0 <= i < j < |tracks| ==> Separate(tracks[i], tracks[j])
    }

    /** Every track is formatted and holds its part of the image. */
    ghost predicate Valid()
      reads this`tracks, this`image, this`maxTrack, Objects()
    {
      Apart() && |tracks| == |image| == 2 * (maxTrack + 1) && maxTrack < 256
      && forall i :: 0 <= i < |tracks| ==> Holds(i)
    }

    ghost predicate Holds(i: nat)
      requires i < |tracks| == |image|
      reads this`tracks, this`image, tracks[i], tracks[i].bytes, tracks[i].clocks
    {
      tracks[i].Formatted() && tracks[i].cyl == i / 2 && tracks[i].pages == image[i]
    }

    constructor ()
      ensures !present && tracks == []
    {
      present, maxTrack, tracks, image := false, 81, [], [];
    }

    /** `formatTRDOS`, for two sides. */
    method Format(count: nat)
      requires 1 <= count <= 256
      modifies this
      ensures Valid() && present == old(present) && maxTrack == count - 1 && fresh(Objects())
      ensures image == NewImage(2 * count)
    {
      hide TrackByte, ClockByte;
      maxTrack, tracks, image := count - 1, [], [];
      var free := (2 * count * 16 + 0x1_0000 - 16) % 0x1_0000;
      for t := 0 to count
        invariant |tracks| == |image| == 2 * t && maxTrack == count - 1 && present == old(present)
        invariant fresh(Objects()) && Apart()
        invariant image == NewImage(2 * count)[..2 * t]
        invariant forall i :: 0 <= i < |tracks| ==> Holds(i)
      {
        AddTrack(t, 0, free);
        AddTrack(t, 1, free);
      }
    }

    method AddTrack(trk: Byte, side: nat, free: nat)
      requires side < 2 && |tracks| == |image| == 2 * trk + side && Apart() && free < 0x1_0000
      requires forall i :: 0 <= i < |tracks| ==> Holds(i)
      modifies this`tracks, this`image
      ensures |tracks| == old(|tracks|) + 1 && fresh(Objects() - old(Objects()))
      ensures Apart() && |tracks| == |image| && (forall i :: 0 <= i < |tracks| ==> Holds(i))
      ensures image == old(image) + [NewPages(trk, side, free)]
    {
      hide TrackByte, ClockByte, Track.Formatted;
      var t := new Track();
      t.Format(trk, side, free);
      ghost var before, held := tracks, image;
      label made:
      tracks := tracks + [t];
      image := image + [t.pages];
      forall i | 0 <= i < |tracks| ensures Holds(i) {
        if i < |before| {
          assert old@made(Holds(i));
          assert tracks[i] == before[i] && image[i] == held[i];
        }
      }
      assert forall o :: o in Objects() ==> o in old(Objects()) || o == t || o == t.bytes || o == t.clocks;
    }

    /** Whether there is such a track: the guard of every search. */
    predicate Ready(cyl: nat, side: nat)
      reads this
    {
      present && cyl <= maxTrack && side <= 1 && 2 * cyl + side < |tracks|
    }

    /** `FindSector`, on any disk: whether the search comes to an end and, if so, what is found, and
        the 256 bytes that are there. */
    method FindSector(cyl: Byte, side: Byte, sect: Byte, from: nat) returns (ended: bool, f: Found, data: seq<Byte>)
      requires Ready(cyl, side) ==>
                 tracks[2 * cyl + side].Any() && from < tracks[2 * cyl + side].length
                 && SearchInBuffer(tracks[2 * cyl + side].TheRing(), from, sect)
      ensures ended <==> (Ready(cyl, side) ==> Ends(tracks[2 * cyl + side].TheRing(), from, sect))
      ensures if Ready(cyl, side) && ended then FoundIs(tracks[2 * cyl + side].TheRing(), f, from, sect)
              else f.NotFound?
      ensures if f.Found? then f.off < tracks[2 * cyl + side].length
                               && data == tracks[2 * cyl + side].bytes[f.off..f.off + 256]
              else data == []
    {
      hide FoundIs, Ends, SearchInBuffer;
      if !Ready(cyl, side) { return true, NotFound, []; }
      ended, f, data := tracks[2 * cyl + side].ReadSector(sect, from);
    }

    /** On a formatted disk it ends, and finds the sectors from 1 to 16, wherever it begins. */
    lemma FormattedSector(cyl: Byte, side: Byte, sect: Byte, from: nat, f: Found)
      requires Valid() && Ready(cyl, side) && from < TRACK
      ensures var t := tracks[2 * cyl + side];
              t.Any() && t.length == TRACK && ComesBack(t.TheRing(), from, sect)
              && (FoundIs(t.TheRing(), f, from, sect) ==>
                    if 1 <= sect <= 16 then
                      Finds(f, sect - 1, from)
                      && t.bytes[f.off..f.off + 256] == image[2 * cyl + side][sect - 1]
                    else f.NotFound?)
    {
      hide Track.Formatted, FoundIs, Ends, Stop, SearchInBuffer;
      var t := tracks[2 * cyl + side];
      assert Holds(2 * cyl + side);
      t.FormattedEnds(from, sect);
      t.FormattedInBuffer(from, sect);
      t.FormattedAddress(from);
      if FoundIs(t.TheRing(), f, from, sect) {
        t.FormattedFinds(f, from, sect);
        if 1 <= sect <= 16 { t.FormattedPage(f, from, sect); }
      }
    }

    /** Storing into a sector: search, copy, checksum. */
    method Store(cyl: Byte, side: Byte, sect: Byte, at: nat, data: seq<Byte>) returns (ok: bool)
      requires Valid() && at + |data| <= 256
      modifies this`image, Objects()
      ensures Valid() && ok == (Ready(cyl, side) && 1 <= sect <= 16)
      ensures image == if ok then Stored(old(image), 2 * cyl + side, sect - 1, at, data) else old(image)
    {
      hide Track.Formatted, Overlay;
      if !Ready(cyl, side) { return false; }
      ghost var i := 2 * cyl + side;
      assert Holds(i);
      label before:
      ok := tracks[2 * cyl + side].WriteSector(sect, at, data);
      image := image[i := tracks[i].pages];
      forall j | 0 <= j < |tracks| ensures Holds(j) {
        assert old@before(Holds(j));
        if i < j { assert Separate(tracks[i], tracks[j]); }
        if j < i { assert Separate(tracks[j], tracks[i]); }
      }
    }

    /** On every track the searches for the sixteen sectors come to an end. */
    ghost predicate Searchable()
      reads this`tracks, this`maxTrack, Objects()
    {
      |tracks| == 2 * (maxTrack + 1) && maxTrack < 256
      && forall i :: 0 <= i < |tracks| ==> tracks[i].Any() && SearchesEnd(tracks[i].TheRing())
    }

    /** And on this one all checksums that they come to can be taken. */
    ghost predicate InMemory(i: nat)
      requires i < |tracks|
      reads this`tracks, tracks[i].bytes, tracks[i].clocks
    {
      tracks[i].Any() && SearchesInBuffer(tracks[i].TheRing())
    }

    /** What the searches find on the first `n` tracks. */
    ghost function Shown(n: nat): (r: Image)
      requires n <= |tracks| && Searchable()
      reads this`tracks, this`maxTrack, Objects()
      ensures |r| == n && forall i :: 0 <= i < n ==> r[i] == PagesShown(tracks[i].TheRing())
    {
      hide PagesShown, SearchesEnd;
      if n == 0 then [] else Shown(n - 1) + [PagesShown(tracks[n - 1].TheRing())]
    }

    /** On a formatted disk that is the image. */
    lemma FormattedShown()
      requires Valid()
      ensures Searchable() && Shown(|tracks|) == image && forall i :: 0 <= i < |tracks| ==> InMemory(i)
    {
      hide Track.Formatted, PagesShown, SearchesEnd, SearchesInBuffer;
      forall i | 0 <= i < |tracks|
        ensures tracks[i].Any() && SearchesEnd(tracks[i].TheRing()) && SearchesInBuffer(tracks[i].TheRing())
                && PagesShown(tracks[i].TheRing()) == image[i]
      {
        assert Holds(i);
        TrackShown(tracks[i]);
      }
    }

    /** What the searches on a track give for its sixteen sectors. */
    ghost predicate Gives(i: nat, pages: Pages)
      requires i < |tracks|
      reads this`tracks, tracks[i].bytes, tracks[i].clocks
    {
      tracks[i].Any() && SearchesEnd(tracks[i].TheRing()) && pages == PagesShown(tracks[i].TheRing())
    }

    lemma AllGive(shown: Image)
      requires |tracks| == 2 * (maxTrack + 1) && maxTrack < 256
      ensures Searchable() && shown == Shown(|tracks|)
         <==> |shown| == |tracks| && forall i :: 0 <= i < |tracks| ==> Gives(i, shown[i])
    {
      hide PagesShown, SearchesEnd, Shown;
      if |shown| == |tracks| && forall i :: 0 <= i < |tracks| ==> Gives(i, shown[i]) {
        forall i | 0 <= i < |tracks| ensures tracks[i].Any() && SearchesEnd(tracks[i].TheRing()) {
          assert Gives(i, shown[i]);
        }
        forall i | 0 <= i < |tracks| ensures shown[i] == Shown(|tracks|)[i] { assert Gives(i, shown[i]); }
      }
    }

    /** `writeTRD`: the image file, with a page of text for each sector that cannot be found; or
        nothing, if some search on the way does not come to an end. */
    method WriteTrd() returns (ended: bool, file: seq<Byte>)
      requires maxTrack < 256
      requires present ==> |tracks| == 2 * (maxTrack + 1) && forall i :: 0 <= i < |tracks| ==> InMemory(i)
      ensures ended <==> (present ==> Searchable())
      ensures ended ==> file == Flat(if present then Shown(|tracks|) else NullImage(2 * (maxTrack + 1)))
    {
      hide Flat, FlatPages, NullPages, Gives, Shown, InMemory;
      FlatNone();
      ghost var shown: Image := [];
      file := [];
      for trk := 0 to maxTrack + 1
        invariant present ==> forall i :: 0 <= i < |tracks| ==> InMemory(i)
        invariant |shown| == 2 * trk && file == Flat(shown)
        invariant forall i :: 0 <= i < |shown| ==> if present then Gives(i, shown[i]) else shown[i] == NullPages()
      {
        for side := 0 to 2
          invariant present ==> forall i :: 0 <= i < |tracks| ==> InMemory(i)
          invariant |shown| == 2 * trk + side && file == Flat(shown)
          invariant forall i :: 0 <= i < |shown| ==> if present then Gives(i, shown[i]) else shown[i] == NullPages()
        {
          var one, part;
          ghost var pages;
          one, part, pages := TrackFile(trk, side);
          if !one { return false, []; }
          assert (shown + [pages])[..|shown|] == shown;
          FlatMore(shown + [pages], |shown|);
          assert (shown + [pages])[..|shown| + 1] == shown + [pages];
          shown := shown + [pages];
          file := file + part;
        }
      }
      ended := true;
      if present { AllGive(shown); }
      assert !present ==> shown == NullImage(2 * (maxTrack + 1));
    }

    /** The sixteen sectors of one track. */
    method TrackFile(trk: Byte, side: Byte) returns (ended: bool, part: seq<Byte>, ghost pages: Pages)
      requires trk <= maxTrack && side < 2 && (present ==> 2 * trk + side < |tracks| && InMemory(2 * trk + side))
      ensures ended <==> (present ==> SearchesEnd(tracks[2 * trk + side].TheRing()))
      ensures ended ==> part == FlatPages(pages)
      ensures ended ==> if present then Gives(2 * trk + side, pages) else pages == NullPages()
    {
      hide PagesShown, NullPages, FoundIs, FlatPages, PageShown, Ends, SearchInBuffer, IsShown;
      ghost var i, found: seq<Page> := 2 * trk + side, [];
      pages := NullPages();
      part := [];
      FlatNoPages();
      for sec := 0 to 16
        invariant |found| == sec && part == FlatPages(found)
        invariant forall k :: 0 <= k < sec ==>
                    if present then IsShown(tracks[i].TheRing(), k, found[k]) else found[k] == NullPage()
      {
        var one, f, data := FindSector(trk, side, sec + 1, 0);
        if !one { return false, part, pages; }
        if f.NotFound? { data := NullPage(); }
        if present { PageFound(tracks[2 * trk + side], f, data, sec); }
        OnePageMore(found, data);
        found := found + [data];
        part := part + data;
      }
      pages := found;
      ended := true;
      if present { SixteenShown(tracks[i].TheRing(), pages); } else { AllNull(pages); }
    }
  }

  lemma FlatNoPages()
    ensures FlatPages([]) == []
  {
  }

  lemma OnePageMore(pages: seq<Page>, page: Page)
    ensures FlatPages(pages + [page]) == FlatPages(pages) + page
  {
    assert (pages + [page])[..|pages|] == pages;
  }

  lemma AllNull(pages: Pages)
    requires forall k :: 0 <= k < 16 ==> pages[k] == NullPage()
    ensures pages == NullPages()
  {
    hide NullPage;
  }

  // ---------- what searches show of a track ----------

  ghost predicate SearchesEnd(r: Ring) { Proper(r) && forall sect: Byte :: 1 <= sect <= 16 ==> Ends(r, 0, sect) }

  ghost predicate SearchesInBuffer(r: Ring) {
    Proper(r) && forall sect: Byte :: 1 <= sect <= 16 ==> SearchInBuffer(r, 0, sect)
  }

  function PageFrom(r: Ring, off: nat): Page
    requires Proper(r) && off < r.length
  {
    r.bytes[off..off + 256]
  }

  /** The page that is written for a sector. */
  ghost function PageShown(r: Ring, sect: Byte): Page
    requires Proper(r) && Ends(r, 0, sect)
  {
    hide *;
    if Shows(r, 0, sect) then PageFrom(r, DataSpot(r, 0, sect)) else NullPage()
  }

  ghost function PagesShown(r: Ring): (p: Pages)
    requires SearchesEnd(r)
  {
    hide NullPage, PageShown, Ends, Proper;
    seq(16, k requires 0 <= k < 16 => PageShown(r, k + 1))
  }

  lemma PageShownAt(r: Ring, k: nat)
    requires SearchesEnd(r) && k < 16
    ensures Ends(r, 0, k + 1) && PagesShown(r)[k] == PageShown(r, k + 1)
  {
    hide PageShown, Ends;
  }

  /** Page `k` of those that the searches on a track give. */
  ghost predicate IsShown(r: Ring, k: nat, page: Page) {
    k < 16 && Proper(r) && Ends(r, 0, k + 1) && page == PageShown(r, k + 1)
  }

  lemma SixteenShown(r: Ring, pages: Pages)
    requires forall k :: 0 <= k < 16 ==> IsShown(r, k, pages[k])
    ensures SearchesEnd(r) && pages == PagesShown(r)
  {
    hide PageShown, Ends, PagesShown;
    assert IsShown(r, 0, pages[0]);
    forall sect: Byte | 1 <= sect <= 16 ensures Ends(r, 0, sect) { assert IsShown(r, sect - 1, pages[sect - 1]); }
    forall k | 0 <= k < 16 ensures pages[k] == PagesShown(r)[k] {
      assert IsShown(r, k, pages[k]);
      PageShownAt(r, k);
    }
  }

  lemma PageFound(t: Track, f: Found, data: seq<Byte>, k: nat)
    requires t.Any() && k < 16 && Ends(t.TheRing(), 0, k + 1) && FoundIs(t.TheRing(), f, 0, k + 1)
    requires if f.Found? then f.off < t.length && data == t.bytes[f.off..f.off + 256] else data == NullPage()
    ensures |data| == 256 && IsShown(t.TheRing(), k, data)
  {
    hide FoundIs, Ends, Shows, DataSpot, NullPage;
    FoundWhere(t.TheRing(), f, 0, k + 1);
  }

  lemma TrackShown(t: Track)
    requires t.Formatted()
    ensures t.Any() && SearchesEnd(t.TheRing()) && SearchesInBuffer(t.TheRing())
    ensures PagesShown(t.TheRing()) == t.pages
  {
    hide Track.Formatted, FoundIs, Ends, Shows, DataSpot, PagesShown, NullPage, Stop, SearchInBuffer;
    t.FormattedAddress(0);
    forall sect: Byte ensures Ends(t.TheRing(), 0, sect) && SearchInBuffer(t.TheRing(), 0, sect) {
      t.FormattedEnds(0, sect);
      t.FormattedInBuffer(0, sect);
    }
    forall k: nat | k < 16 ensures PagesShown(t.TheRing())[k] == t.pages[k] {
      PageShownAt(t.TheRing(), k);
      OneShown(t, k);
    }
  }

  lemma OneShown(t: Track, k: nat)
    requires t.Formatted() && k < 16 && t.Any() && SearchesEnd(t.TheRing())
    ensures PageShown(t.TheRing(), k + 1) == t.pages[k]
  {
    hide Track.Formatted, FoundIs, Ends, Shows, DataSpot, Stop, NullPage;
    t.FormattedAddress(0);
    var f := AFound(t.TheRing(), 0, k + 1);
    t.FormattedFinds(f, 0, k + 1);
    FoundWhere(t.TheRing(), f, 0, k + 1);
    t.FormattedPage(f, 0, k + 1);
  }

  /** There is something to be found, or nothing. */
  lemma AFound(r: Ring, from: nat, sect: Byte) returns (f: Found)
    requires Proper(r) && Ends(r, from, sect)
    ensures FoundIs(r, f, from, sect)
  {
    hide Ends, Stop, HasAddress, Number, Visit, AddressIs, DataIs;
    var o := Visit(r, from, Stop(r, from, sect));
    f := NotFound;
    if HasAddress(r, o) && Number(r, o) == sect {
      var a := AnAddress(r, o);
      f := SomeData(r, a);
    }
  }

  lemma AnAddress(r: Ring, o: nat) returns (a: Address)
    requires Proper(r) && HasAddress(r, o)
    ensures AddressIs(r, a, o) && a.Address? && a.end < r.length
  {
    hide HasAddress, AddressAt, First, Passes, CrcTest;
    var x := AddressAt(r, o);
    var p, off := (o + First(r, o, r.length)) % r.length, (x + 1) % r.length;
    a := Address(p, off, (x + 7) % r.length, Passes(r, p, off, 4));
  }

  lemma SomeData(r: Ring, a: Address) returns (f: Found)
    requires Proper(r) && a.Address? && a.end < r.length
    ensures DataIs(r, f, a)
  {
    hide HasData, DataMark, Marker, Passes, CrcTest, SizeOf;
    f := NotFound;
    if HasData(r, a.end) {
      var q := DataMark(r, a.end);
      var at, size := (Marker(r, q) + 1) % r.length, SizeOf(ByteAt(r, a.off + 3));
      f := Found(a, q % r.length, at, (at + size) % r.length, size, Passes(r, q % r.length, at, size));
    }
  }

  function Passes(r: Ring, p: nat, off: nat, n: nat): (ok: bool)
    requires Proper(r)
    ensures CrcTest(r, p, off, n, ok)
  {
    InBuffer(r, p, off, n) &&
    var crc := Crc(r.bytes[p..off + n]);
    ByteAt(r, off + n) == crc / 0x100 && ByteAt(r, off + n + 1) == crc % 0x100
  }
}
