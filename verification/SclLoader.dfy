/** Making a disk from an SCL archive. */
module SclLoader {
  import opened Numbers
  import opened BitOps
  import opened FloppyLayout
  import opened FloppySearch
  import opened FloppyTrack
  import opened FloppyDisk
  import opened Scl
  import opened SclArchive

  datatype Status = Corrupt | BadFormat | Loaded(badSum: bool)

  function Sum(s: seq<Byte>): nat {
    if s == [] then 0 else Sum(s[..|s| - 1]) + s[|s| - 1]
  }

  lemma SumNone()
    ensures Sum([]) == 0
  {
  }

  function Long(s: seq<Byte>, at: nat): nat
    requires at + 4 <= |s|
  {
    var a: nat, b: nat, c: nat, d: nat := s[at], s[at + 1], s[at + 2], s[at + 3];
    a + 0x100 * b + 0x1_0000 * c + 0x100_0000 * d
  }

  /** What comes of an archive: its checksum only makes a warning. */
  function Outcome(ptr: seq<Byte>): Status {
    if |ptr| < 13 then Corrupt
    else if ptr[..8] != MAGIC then BadFormat
    else if !Whole(ptr) then Corrupt
    else
      var end := DataAt(ptr) + 256 * Before(ptr, Count(ptr));
      Loaded(Long(ptr, end) != Sum(ptr[..end]))
  }

  /** The checks of `readSCL`, and the sectors of all files together. */
  method Check(ptr: seq<Byte>) returns (r: Status, total: nat)
    ensures r == Outcome(ptr) && (r.Loaded? ==> total == Before(ptr, Count(ptr)))
  {
    hide Head, Sum, Long;
    total := 0;
    if |ptr| == 0 { return Corrupt, 0; }
    if |ptr| < 13 { return Corrupt, 0; }
    if ptr[..8] != MAGIC { return BadFormat, 0; }
    var count: nat := ptr[8];
    if |ptr| < 13 + 14 * count { return Corrupt, 0; }
    var off := 9 + 14 * count;
    SumNone();
    var sum := SumTo(ptr, 0, off, 0);
    for i := 0 to count
      invariant total == Before(ptr, i) && off == DataAt(ptr) + 256 * total <= |ptr| && sum == Sum(ptr[..off])
      invariant i > 0 ==> off + 4 <= |ptr|
    {
      var sectors: nat := Head(ptr, i)[13];
      total := total + sectors;
      BeforeMonotone(ptr, i + 1, count);
      if |ptr| < off + 4 + 256 * sectors { return Corrupt, 0; }
      sum := SumTo(ptr, off, off + 256 * sectors, sum);
      off := off + 256 * sectors;
    }
    r := Loaded(Long(ptr, off) != sum);
  }

  method SumTo(ptr: seq<Byte>, from: nat, to: nat, start: nat) returns (sum: nat)
    requires from <= to <= |ptr| && start == Sum(ptr[..from])
    ensures sum == Sum(ptr[..to])
  {
    sum := start;
    for i := from to to
      invariant sum == Sum(ptr[..i])
    {
      assert ptr[..i + 1][..i] == ptr[..i];
      sum := sum + ptr[i];
    }
  }

  /** How many entries there are and how many of them are deleted, and whether a boot file is
      wanted. */
  method Tally(ptr: seq<Byte>) returns (boot: bool, count: nat, deleted: nat)
    requires HasDirectory(ptr)
    ensures boot == NoBoot(ptr, Count(ptr)) && count == Count(ptr) && deleted == Deleted(ptr, Count(ptr))
  {
    hide Head, IsBoot;
    boot, count, deleted := true, 0, 0;
    for i := 0 to ptr[8]
      invariant boot == NoBoot(ptr, i) && count == i && deleted == Deleted(ptr, i)
    {
      var head := Head(ptr, i);
      if head[0] == 1 { deleted := deleted + 1; }
      count := count + 1;
      if IsBoot(head) { boot := false; }
    }
  }

  // ---------- the size of the disk ----------

  /** The tracks, counting sides, that are formatted for archived files of `total` sectors: 160, or
      whole cylinders for more. */
  function TracksFor(total: nat): (n: nat)
    ensures 160 <= n && Size(n) >= 16 + total
  {
    var sectors := if total < 2544 then 2544
                   else ((16 + total) / 32 + if (16 + total) % 32 != 0 then 1 else 0) * 32 - 16;
    (sectors + 16) / 32 * 2
  }

  /** The tracks for an archive. */
  function TracksOf(ptr: seq<Byte>): (n: nat)
    requires Whole(ptr)
    ensures 160 <= n
  {
    TracksFor(Before(ptr, Count(ptr)))
  }

  /** A byte can count the tracks. */
  predicate Countable(ptr: seq<Byte>)
    requires Whole(ptr)
  {
    Before(ptr, Count(ptr)) <= 4048
  }

  lemma CountableTracks(ptr: seq<Byte>)
    requires Whole(ptr) && Countable(ptr)
    ensures TracksOk(TracksOf(ptr)) && TracksOf(ptr) % 2 == 0
  {
    hide Before;
  }

  // ---------- storing ----------

  /** What the loader's variables stand for: `p` is the next free sector. */
  predicate At(p: nat, sec: nat, trk: nat, free: nat) {
    sec < 16 && p == 16 * trk + sec && p >= 16 && free == Count16(p - 16)
  }

  /** A directory entry. */
  method PlaceEntry(d: Disk, ghost n: nat, ghost files: seq<File>, cnt: nat, head: seq<Byte>,
                    sec: Byte, trk: Byte, ghost free: nat)
    requires cnt < |files| && cnt < 256 && head == files[cnt].head && Start(files, cnt) < Size(n)
    requires d.Valid() && d.present && Progress(d.image, n, files, cnt, Start(files, cnt))
    requires At(Start(files, cnt), sec, trk, free)
    modifies d`image, d.Objects()
    ensures d.Valid() && Progress(d.image, n, files, cnt + 1, Start(files, cnt))
  {
    hide Disk.Valid, Progress, Stored, Used;
    ReadyFor(d, n, files, cnt, Start(files, cnt));
    AfterEntry(d.image, n, files, cnt, Start(files, cnt));
    assert Start(files, cnt) % 16 == sec && Start(files, cnt) / 16 == trk;
    EntryFits(files, cnt);
    var dirsec := cnt * 16 / 256 + 1;
    var ok := d.Store(0, 0, dirsec, cnt * 16 % 256, head + [sec, trk]);
  }

  lemma EntryFits(files: seq<File>, cnt: nat)
    requires AreFiles(files) && cnt < |files| && cnt < 256
    ensures |files[cnt].head| == 14 && cnt * 16 / 256 == cnt / 16 < 16 && cnt * 16 % 256 == cnt % 16 * 16 <= 240
  {
  }

  lemma ReadyFor(d: Disk, n: nat, files: seq<File>, cnt: nat, p: nat)
    requires d.Valid() && d.present && Progress(d.image, n, files, cnt, p)
    ensures AreFiles(files) && |d.image| == n == 2 * (d.maxTrack + 1) && TracksOk(n) && 16 <= p <= Size(n)
    ensures forall t: nat, s: nat :: s <= 1 && 2 * t + s < n ==> d.Ready(t, s)
  {
  }

  /** One sector of a file, and on to the next. */
  method PlaceSector(d: Disk, ghost n: nat, ghost files: seq<File>, ghost cnt: nat, data: Page,
                     sec: Byte, trk: Byte, free: nat, ghost p: nat)
    returns (sec': Byte, trk': Byte, free': nat)
    requires d.Valid() && d.present && Progress(d.image, n, files, cnt, p) && At(p, sec, trk, free)
    requires p < Size(n) && p - 16 < |Flow(files)| && data == Flow(files)[p - 16]
    modifies d`image, d.Objects()
    ensures d.Valid() && Progress(d.image, n, files, cnt, p + 1) && At(p + 1, sec', trk', free')
  {
    hide Disk.Valid, Progress, Stored, Flow;
    ReadyFor(d, n, files, cnt, p);
    AfterSector(d.image, n, files, cnt, p);
    assert p / 16 == trk && p % 16 == sec && 2 * (trk / 2) + trk % 2 == trk;
    var ok := d.Store(trk / 2, trk % 2, sec + 1, 0, data);
    sec', trk', free' := sec + 1, trk, (free + 0xFFFF) % 0x1_0000;
    if sec' > 15 { sec', trk' := 0, trk' + 1; }
    OneLess(p - 16);
  }

  lemma OneLess(used: nat)
    ensures (Count16(used) + 0xFFFF) % 0x1_0000 == Count16(used + 1)
  {
  }

  // ---------- all files ----------

  /** The boot file, in front. */
  method PlaceBoot(d: Disk, ghost n: nat, ghost ptr: seq<Byte>, boot: seq<Page>)
    returns (sec: Byte, trk: Byte, free: nat)
    requires Whole(ptr) && |boot| < 256 && AddsBoot(ptr)
    requires d.Valid() && d.present && Progress(d.image, n, Files(ptr, boot), 0, 16)
    modifies d`image, d.Objects()
    ensures d.Valid() && Progress(d.image, n, Files(ptr, boot), 1, 16 + |boot|) && At(16 + |boot|, sec, trk, free)
  {
    hide Disk.Valid, Progress, Files, AddsBoot, Flow, BootHead, Start, DataAt, Sectors, Before, At;
    ghost var files := Files(ptr, boot);
    ReadyFor(d, n, files, 0, 16);
    Placed(ptr, boot, 0);
    FlowFiles(ptr, boot);
    FirstStart(files);
    FirstFree();
    sec, trk, free := 0, 1, 2544;
    PlaceEntry(d, n, files, 0, BootHead(|boot|), sec, trk, free);
    for j := 0 to |boot|
      invariant d.Valid() && d.present && d.Objects() == old(d.Objects())
      invariant Progress(d.image, n, files, 1, 16 + j) && At(16 + j, sec, trk, free)
    {
      sec, trk, free := PlaceSector(d, n, files, 1, boot[j], sec, trk, free, 16 + j);
    }
  }

  lemma FirstFree()
    ensures At(16, 0, 1, 2544)
  {
  }

  lemma FirstStart(files: seq<File>)
    ensures Start(files, 0) == 16
  {
    assert files[..0] == [];
    FlowEmpty();
  }

  lemma Room(ptr: seq<Byte>, boot: seq<Page>, i: nat)
    requires Whole(ptr) && |boot| < 256 && i < Count(ptr)
    ensures var files, k, len := Files(ptr, boot), BootFiles(ptr) + i, Head(ptr, i)[13];
            k < |files| < 256 && files[k].head == Head(ptr, i) && Before(ptr, i + 1) == Before(ptr, i) + len
            && Start(files, k + 1) == Start(files, k) + len <= 16 + |Flow(files)|
  {
    hide Files, Flow, Head, FileAt, Deleted, NoBoot;
    Placed(ptr, boot, i);
    Placed(ptr, boot, i + 1);
    FileBody(ptr, i);
    FlowAt(Files(ptr, boot), BootFiles(ptr) + i);
  }

  lemma FileSector(ptr: seq<Byte>, boot: seq<Page>, i: nat, j: nat)
    requires Whole(ptr) && |boot| < 256 && i < Count(ptr) && j < Head(ptr, i)[13]
    ensures var files, k := Files(ptr, boot), BootFiles(ptr) + i;
            var off := DataAt(ptr) + 256 * Before(ptr, i) + 256 * j;
            k < |files| && off + 256 <= |ptr| && Start(files, k) + j - 16 < |Flow(files)|
            && ptr[off..off + 256] == Flow(files)[Start(files, k) + j - 16]
  {
    hide Files, AddsBoot, Flow, Head, DataAt, FileAt;
    Placed(ptr, boot, i);
    FileBody(ptr, i);
    FlowFiles(ptr, boot);
    var x := Before(ptr, i) + j;
    assert Sectors(ptr, DataAt(ptr), Before(ptr, Count(ptr)))[x]
        == ptr[DataAt(ptr) + 256 * x..DataAt(ptr) + 256 * x + 256];
  }

  /** One file of the archive, up to the end of the disk. */
  method PlaceFile(d: Disk, ghost n: nat, ptr: seq<Byte>, ghost boot: seq<Page>, i: nat, cnt: nat, off: nat,
                   sec0: Byte, trk0: Byte, free0: nat)
    returns (off': nat, sec: Byte, trk: Byte, free: nat)
    requires Whole(ptr) && |boot| < 256 && i < Count(ptr) && cnt == BootFiles(ptr) + i < |Files(ptr, boot)|
    requires d.Valid() && d.present && Start(Files(ptr, boot), cnt) < Size(n)
    requires Progress(d.image, n, Files(ptr, boot), cnt, Start(Files(ptr, boot), cnt))
    requires off == DataAt(ptr) + 256 * Before(ptr, i) && At(Start(Files(ptr, boot), cnt), sec0, trk0, free0)
    modifies d`image, d.Objects()
    ensures var p := Min(Start(Files(ptr, boot), cnt + 1), Size(n));
            d.Valid() && Progress(d.image, n, Files(ptr, boot), cnt + 1, p) && At(p, sec, trk, free)
            && (p < Size(n) ==> off' == DataAt(ptr) + 256 * Before(ptr, i + 1))
  {
    hide Disk.Valid, Progress, Files, AddsBoot, Flow, Start, DataAt, Head, At;
    ghost var files := Files(ptr, boot);
    ghost var start := Start(files, cnt);
    Room(ptr, boot, i);
    ReadyFor(d, n, files, cnt, start);
    off', sec, trk, free := off, sec0, trk0, free0;
    var head := Head(ptr, i);
    PlaceEntry(d, n, files, cnt, head, sec, trk, free);
    ghost var p: nat := start;
    for j := 0 to head[13]
      invariant d.Valid() && d.present && d.Objects() == old(d.Objects()) && d.maxTrack == old(d.maxTrack)
      invariant p == start + j <= Size(n) && (p < Size(n) || j == head[13])
      invariant Progress(d.image, n, files, cnt + 1, p) && At(p, sec, trk, free) && off' == off + 256 * j
    {
      FileSector(ptr, boot, i, j);
      sec, trk, free := PlaceSector(d, n, files, cnt + 1, ptr[off'..off' + 256], sec, trk, free, p);
      off' := off' + 256;
      p := p + 1;
      Full(p, n, sec, trk, free);
      if trk >= (d.maxTrack + 1) * 2 { break; }
    }
  }

  /** All files of the archive, until the disk is full. */
  method PlaceFiles(d: Disk, ghost n: nat, ptr: seq<Byte>, ghost boot: seq<Page>, cnt0: nat,
                    sec0: Byte, trk0: Byte, free0: nat)
    returns (ghost cnt: nat, sec: Byte, trk: Byte, free: nat)
    requires Whole(ptr) && |boot| < 256 && cnt0 == BootFiles(ptr) && 16 + |BootPages(ptr, boot)| <= Size(n)
    requires d.Valid() && d.present && Progress(d.image, n, Files(ptr, boot), cnt0, 16 + |BootPages(ptr, boot)|)
    requires At(16 + |BootPages(ptr, boot)|, sec0, trk0, free0)
    modifies d`image, d.Objects()
    ensures var files := Files(ptr, boot); var p := Min(16 + |Flow(files)|, Size(n));
            d.Valid() && Progress(d.image, n, files, cnt, p) && At(p, sec, trk, free)
            && cnt <= |files| && (cnt == |files| || Start(files, cnt) >= Size(n))
  {
    hide Disk.Valid, Progress, Files, AddsBoot, Flow, Start, DataAt, Head, BootPages, FileAt, At;
    ghost var files := Files(ptr, boot);
    sec, trk, free := sec0, trk0, free0;
    var off := 9 + 14 * Count(ptr);
    var i := 0;
    StartsAt(ptr, boot, 0);
    ghost var p: nat := Start(files, cnt0);
    ReadyFor(d, n, files, cnt0, p);
    while i < Count(ptr)
      invariant i <= Count(ptr) && d.Valid() && d.present
      invariant d.Objects() == old(d.Objects()) && d.tracks == old(d.tracks)
      invariant cnt0 + i <= |files| && Progress(d.image, n, files, cnt0 + i, p) && At(p, sec, trk, free)
      invariant p == Min(Start(files, cnt0 + i), Size(n))
      invariant p < Size(n) ==> off == DataAt(ptr) + 256 * Before(ptr, i)
    {
      Full(p, n, sec, trk, free);
      if trk >= (d.maxTrack + 1) * 2 { break; }
      StartsAt(ptr, boot, i);
      off, sec, trk, free := PlaceFile(d, n, ptr, boot, i, cnt0 + i, off, sec, trk, free);
      i := i + 1;
      p := Min(Start(files, cnt0 + i), Size(n));
    }
    cnt := cnt0 + i;
    StartsAt(ptr, boot, i);
    LoopEnds(n, files, cnt);
  }

  /** The test for a full disk. */
  lemma Full(p: nat, n: nat, sec: nat, trk: nat, free: nat)
    requires At(p, sec, trk, free) && p <= Size(n)
    ensures trk >= n <==> p == Size(n)
  {
  }

  lemma StartsAt(ptr: seq<Byte>, boot: seq<Page>, i: nat)
    requires Whole(ptr) && |boot| < 256 && i <= Count(ptr)
    ensures var files, k := Files(ptr, boot), BootFiles(ptr) + i;
            |files| == BootFiles(ptr) + Count(ptr) && Start(files, k) == 16 + |BootPages(ptr, boot)| + Before(ptr, i)
            && DataAt(ptr) == 9 + 14 * Count(ptr) && Before(ptr, 0) == 0
  {
    hide Files, AddsBoot, Flow, Head, FileAt, Used;
    Placed(ptr, boot, i);
  }

  /** The loop ends with everything stored, or with the disk full. */
  lemma LoopEnds(n: nat, files: seq<File>, cnt: nat)
    requires cnt <= |files| && (cnt == |files| || Start(files, cnt) >= Size(n))
    ensures Min(Start(files, cnt), Size(n)) == Min(16 + |Flow(files)|, Size(n))
  {
    hide Flow;
    assert files[..|files|] == files;
    UsedMonotone(files, cnt, |files|);
  }

  /** The second half of `readSCL`: from a formatted disk to a full one. */
  method Load(d: Disk, ghost n: nat, ptr: seq<Byte>, boot: seq<Page>)
    requires Whole(ptr) && |boot| < 256 && TracksOk(n)
    requires d.Valid() && d.present && d.image == NewImage(n)
    modifies d`image, d.Objects()
    ensures d.Valid() && OnDisk(d.image, n, Files(ptr, boot), FileCount(ptr), Deleted(ptr, Count(ptr)))
  {
    hide Files, Flow, Start, DataAt, FileAt, OnDisk, Progress, Disk.Valid, NoBoot, At;
    var wanted, count, deleted := Tally(ptr);
    Formatted(n, Files(ptr, boot));
    StartsAt(ptr, boot, 0);
    FirstFree();
    var cnt, sec, trk, free := 0, 0, 1, 2544;
    if wanted && count + deleted < 127 {
      sec, trk, free := PlaceBoot(d, n, ptr, boot);
      count := count + 1;
      cnt := 1;
    }
    ghost var entries;
    entries, sec, trk, free := PlaceFiles(d, n, ptr, boot, cnt, sec, trk, free);
    UpdateInfo(d, n, Files(ptr, boot), entries, sec, trk, free, count, deleted);
  }

  /** The number of files that the information sector is to show. */
  function FileCount(ptr: seq<Byte>): (c: Byte)
    requires HasDirectory(ptr)
  {
    Count(ptr) + BootFiles(ptr)
  }

  /** The disk information sector: the next free sector, the counts, and the room left. */
  method UpdateInfo(d: Disk, ghost n: nat, ghost files: seq<File>, ghost cnt: nat, sec: Byte, trk: Byte, free: nat,
                    count: Byte, deleted: Byte)
    requires TracksOk(n) && d.Valid() && d.present && Progress(d.image, n, files, cnt, 16 + InUse(n, files))
    requires At(16 + InUse(n, files), sec, trk, free)
    requires cnt == |files| || (cnt < |files| && Start(files, cnt) >= Size(n))
    modifies d`image, d.Objects()
    ensures d.Valid() && OnDisk(d.image, n, files, count, deleted)
  {
    hide Flow, OnDisk, Progress, Disk.Valid, InfoPage, Start, Overlay, InUse, FoundIs, Ends, SearchInBuffer;
    ReadyFor(d, n, files, cnt, 16 + InUse(n, files));
    assert d.Ready(0, 0);
    d.FormattedSector(0, 0, 9, 0, NotFound);
    var ended, f, page := d.FindSector(0, 0, 9, 0);
    d.FormattedSector(0, 0, 9, 0, f);
    if f.Found? {
      var info: Page := page[0xE1 := sec][0xE2 := trk][0xE4 := count][0xF4 := deleted]
                            [0xE5 := free % 0x100][0xE6 := free / 0x100];
      Finished(d.image, n, files, cnt, 16 + InUse(n, files), count, deleted, info);
      var ok := d.Store(0, 0, 9, 0, info);
    }
  }

  /** `readSCL`. */
  method ReadScl(d: Disk, ptr: seq<Byte>, boot: seq<Page>) returns (r: Status)
    requires |boot| < 256 && (Whole(ptr) ==> Countable(ptr))
    modifies d
    ensures r == Outcome(ptr)
    ensures !r.Loaded? ==> unchanged(d)
    ensures r.Loaded? ==> d.Valid() && d.present
                          && OnDisk(d.image, TracksOf(ptr), Files(ptr, boot), FileCount(ptr), Deleted(ptr, Count(ptr)))
  {
    hide Files, AddsBoot, Flow, Start, DataAt, Head, FileAt, OnDisk, Progress, Disk.Valid;
    var status, total := Check(ptr);
    if !status.Loaded? { return status; }
    CountableTracks(ptr);
    var sectors := if total < 2544 then 2544
                   else (((16 + total) / 32 + if (16 + total) % 32 != 0 then 1 else 0) * 32) - 16;
    d.Format((sectors + 16) / 32);
    d.present := true;
    Load(d, TracksOf(ptr), ptr, boot);
    return status;
  }
}
