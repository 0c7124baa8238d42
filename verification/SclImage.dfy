/** The image file that is written for a disk made from an archive. */
module SclImage {
  import opened Numbers
  import opened BitOps
  import opened FloppyLayout
  import opened FloppyDisk
  import opened Scl
  import opened SclArchive
  import opened SclLoader

  // ---------- where a byte of the disk is in the image file ----------

  lemma {:induction false} PagesByte(pages: seq<Page>, k: nat, b: nat)
    requires k < |pages| && b < 256
    ensures FlatPages(pages)[256 * k + b] == pages[k][b]
  {
    if k >= |pages| - 1 {
    } else {
      PagesByte(pages[..|pages| - 1], k, b);
    }
  }

  lemma {:induction false} ImageByte(image: Image, t: nat, x: nat)
    requires t < |image| && x < 4096
    ensures Flat(image)[4096 * t + x] == FlatPages(image[t])[x]
  {
    hide FlatPages;
    if t >= |image| - 1 {
    } else {
      ImageByte(image[..|image| - 1], t, x);
    }
  }

  /** Sector `p` of the disk begins at byte `256 * p`. */
  lemma SectorInFile(image: Image, p: nat, b: nat)
    requires p < 16 * |image| && b < 256
    ensures Flat(image)[256 * p + b] == PageAt(image, p)[b]
  {
    hide Flat, FlatPages;
    var t, k := p / 16, p % 16;
    ImageByte(image, t, 256 * k + b);
    PagesByte(image[t], k, b);
    assert 4096 * t + (256 * k + b) == 256 * p + b;
  }

  lemma PagesSlice(pages: seq<Page>, file: seq<Byte>, p: nat)
    requires 256 * p + 256 * |pages| <= |file|
    requires forall j, b :: 0 <= j < |pages| && 0 <= b < 256 ==> file[256 * (p + j) + b] == pages[j][b]
    ensures file[256 * p..256 * (p + |pages|)] == FlatPages(pages)
  {
    hide FlatPages;
    forall x | 0 <= x < 256 * |pages| ensures file[256 * p + x] == FlatPages(pages)[x] {
      var j, b := x / 256, x % 256;
      assert x == 256 * j + b;
      PagesByte(pages, j, b);
      assert file[256 * (p + j) + b] == pages[j][b];
    }
  }

  // ---------- what the image file holds ----------

  /** A file's bytes lie in the image in one piece, from its first sector on, as far as the disk goes. */
  lemma FileContiguous(image: Image, n: nat, files: seq<File>, count: Byte, deleted: Byte, i: nat)
    requires OnDisk(image, n, files, count, deleted) && i < |files| && Start(files, i) <= Size(n)
    ensures var p, body := Start(files, i), files[i].body;
            var k := Min(|body|, Size(n) - p);
            Flat(image)[256 * p..256 * (p + k)] == FlatPages(body[..k])
            && (k == |body| <==> Start(files, i + 1) <= Size(n))
  {
    hide Flat, FlatPages, Flow;
    var p, body := Start(files, i), files[i].body;
    FlowAt(files, i);
    var k := Min(|body|, Size(n) - p);
    forall j, b | 0 <= j < k && 0 <= b < 256 ensures Flat(image)[256 * (p + j) + b] == body[..k][j][b] {
      SectorInFile(image, p + j, b);
      assert PageAt(image, p + j) == Flow(files)[p - 16 + j];
      assert Flow(files)[Used(files, i)..Used(files, i + 1)][j] == body[j];
    }
    PagesSlice(body[..k], Flat(image), p);
  }

  /** Byte `x` of the `i`-th sixteen bytes of the image: of the directory entry, but for the bytes that
      the information sector lies on. */
  lemma EntryByte(image: Image, n: nat, files: seq<File>, count: Byte, deleted: Byte, i: nat, x: nat)
    requires OnDisk(image, n, files, count, deleted) && i < 256 && x < 16 && Entered(n, files, i)
    ensures var b := i % 16 * 16 + x;
            Flat(image)[16 * i + x] == if InfoByte(i / 16, b) then InfoValue(InUse(n, files), count, deleted, b)
                                       else Entry(files, i)[x]
  {
    hide Flat, Flow, Start, InfoValue, InfoByte, Entry;
    var s, b := i / 16, i % 16 * 16 + x;
    SectorInFile(image, s, b);
    assert 256 * s + b == 16 * i + x;
    assert PageAt(image, s) == image[0][s];
    Slot(i, s, b);
    assert image[0][s][b] == FinalByte(n, files, count, deleted, s, b);
  }

  /** The directory entry of file `i` is the `i`-th sixteen bytes of the image, and leads to where
      the file is.  Entries 142 and 143 would lie on the information sector's fields. */
  lemma EntryInFile(image: Image, n: nat, files: seq<File>, count: Byte, deleted: Byte, i: nat)
    requires OnDisk(image, n, files, count, deleted) && i < 256 && Entered(n, files, i) && i != 142 && i != 143
    ensures Flat(image)[16 * i..16 * i + 16] == Entry(files, i)
    ensures 16 * (Flat(image)[16 * i + 15] as int) + Flat(image)[16 * i + 14] == Start(files, i)
  {
    hide Flat, Flow, Start;
    var e := Entry(files, i);
    forall x | 0 <= x < 16 ensures Flat(image)[16 * i + x] == e[x] {
      EntryByte(image, n, files, count, deleted, i, x);
    }
    assert e[14] == Start(files, i) % 16 && e[15] == Start(files, i) / 16;
  }

  /** The information sector: the next free sector, the counts, and the room left. */
  lemma InfoInFile(image: Image, n: nat, files: seq<File>, count: Byte, deleted: Byte)
    requires OnDisk(image, n, files, count, deleted)
    ensures var f, used := Flat(image), InUse(n, files);
            16 * (f[0x8E2] as int) + f[0x8E1] == 16 + used && 0x100 * (f[0x8E6] as int) + f[0x8E5] == Count16(used)
            && f[0x8E4] == count && f[0x8F4] == deleted && (|files| <= 142 ==> f[0x8E7] == 0x10)
  {
    hide Flat, Flow, InUse, Count16;
    InfoAt(image, n, files, count, deleted, 0xE1);
    InfoAt(image, n, files, count, deleted, 0xE2);
    InfoAt(image, n, files, count, deleted, 0xE4);
    InfoAt(image, n, files, count, deleted, 0xE5);
    InfoAt(image, n, files, count, deleted, 0xE6);
    InfoAt(image, n, files, count, deleted, 0xE7);
    InfoAt(image, n, files, count, deleted, 0xF4);
  }

  lemma InfoAt(image: Image, n: nat, files: seq<File>, count: Byte, deleted: Byte, b: nat)
    requires OnDisk(image, n, files, count, deleted) && b < 256
    ensures Flat(image)[0x800 + b] == FinalByte(n, files, count, deleted, 8, b)
  {
    hide Flat, Flow, FinalByte;
    SectorInFile(image, 8, b);
    assert PageAt(image, 8) == image[0][8];
  }

  /** The free count is that of a disk of 160 tracks, and right on no larger one. */
  lemma FreeCount(n: nat, files: seq<File>)
    requires TracksOk(n)
    ensures Count16(InUse(n, files)) == Size(n) - 16 - InUse(n, files) <==> n == 160
  {
    hide Flow;
  }

  // ---------- which files are missing from the directory ----------

  /** A file is left out of the directory, though counted, just when the files before it fill the
      disk; if they all fit, it can only be an empty one. */
  lemma LeftOut(n: nat, files: seq<File>, i: nat)
    requires i < |files| && n > 0
    ensures !Entered(n, files, i) <==> Used(files, i) >= Size(n) - 16
    ensures !Entered(n, files, i) && |Flow(files)| <= Size(n) - 16 ==> files[i].body == []
  {
    hide Flow;
    FlowAt(files, i);
  }

  /** In the image file: the sixteen bytes of such an entry are zeros, and of any other they are not. */
  lemma LeftOutInFile(image: Image, n: nat, files: seq<File>, count: Byte, deleted: Byte, i: nat)
    requires OnDisk(image, n, files, count, deleted) && i < |files| && i < 256 && i != 142 && i != 143
    ensures (forall x :: 16 * i <= x < 16 * i + 16 ==> Flat(image)[x] == 0) <==> Used(files, i) >= Size(n) - 16
    ensures Flat(image)[16 * i + 15] == 0 <==> Used(files, i) >= Size(n) - 16
  {
    hide Flat, Flow, Entered;
    LeftOut(n, files, i);
    if Entered(n, files, i) {
      EntryInFile(image, n, files, count, deleted, i);
      StartLate(files, i);
    } else {
      forall x | 16 * i <= x < 16 * i + 16 ensures Flat(image)[x] == 0 {
        NoEntryByte(image, n, files, count, deleted, i, x - 16 * i);
      }
    }
  }

  lemma StartLate(files: seq<File>, i: nat)
    requires i <= |files|
    ensures Start(files, i) >= 16
  {
    hide Flow;
  }

  /** Without its entry, the place of one is as it was formatted. */
  lemma NoEntryByte(image: Image, n: nat, files: seq<File>, count: Byte, deleted: Byte, i: nat, x: nat)
    requires OnDisk(image, n, files, count, deleted) && !Entered(n, files, i)
    requires i < 256 && i != 142 && i != 143 && x < 16
    ensures Flat(image)[16 * i + x] == 0
  {
    hide Flat, Flow, Entered, InfoValue, InUse;
    var s, b := i / 16, i % 16 * 16 + x;
    SectorInFile(image, s, b);
    assert 256 * s + b == 16 * i + x;
    assert PageAt(image, s) == image[0][s];
    Slot(i, s, b);
    assert image[0][s][b] == FinalByte(n, files, count, deleted, s, b);
    AsFormatted(n, i, s, b);
  }

  lemma AsFormatted(n: nat, i: nat, s: nat, b: nat)
    requires i < 256 && i != 142 && i != 143 && s == i / 16 && i % 16 * 16 <= b < i % 16 * 16 + 16
    ensures s < 16 && b < 256 && !InfoByte(s, b) && NewPage(0, 0, s, FreeOf(n))[b] == 0
  {
    if s == 8 { assert b < 0xE0; }
  }

  // Archives of thirteen files, all called "boot    B": twelve of 212 sectors, and a last one.

  function Sizes(last: Byte, i: nat): Byte { if i < 12 then 212 else last }

  function Directory(last: Byte): (s: seq<Byte>)
    ensures |s| == 182
  {
    seq(182, x requires 0 <= x < 182 => BootHead(Sizes(last, x / 14))[x % 14])
  }

  function Archive(last: Byte): (s: seq<Byte>)
    ensures |s| == 9 + 182 + 256 * (2544 + last) + 4
  {
    MAGIC + [13] + Directory(last) + Bytes0(256 * (2544 + last) + 4)
  }

  function Bytes0(n: nat): (s: seq<Byte>)
    ensures |s| == n
  {
    seq(n, _ => 0)
  }

  lemma ArchiveHead(last: Byte, i: nat)
    requires i < 13
    ensures HasDirectory(Archive(last)) && Count(Archive(last)) == 13
    ensures Head(Archive(last), i) == BootHead(Sizes(last, i))
  {
    hide BootHead;
    var ptr := Archive(last);
    assert ptr[..8] == MAGIC;
    forall j | 0 <= j < 14 ensures ptr[9 + 14 * i..23 + 14 * i][j] == BootHead(Sizes(last, i))[j] {
      assert ptr[9 + 14 * i + j] == Directory(last)[14 * i + j];
      assert (14 * i + j) / 14 == i && (14 * i + j) % 14 == j;
    }
  }

  lemma {:induction false} ArchiveBefore(last: Byte, i: nat)
    requires i <= 13
    ensures HasDirectory(Archive(last)) && Count(Archive(last)) == 13
    ensures Before(Archive(last), i) == if i <= 12 then 212 * i else 2544 + last
  {
    hide Archive, Head;
    ArchiveHead(last, 0);
    if i == 0 {
    } else {
      ArchiveHead(last, i - 1);
      ArchiveBefore(last, i - 1);
      assert BootHead(Sizes(last, i - 1))[13] == Sizes(last, i - 1);
    }
  }

  lemma ArchiveWhole(last: Byte)
    ensures Whole(Archive(last)) && Countable(Archive(last)) && TracksOf(Archive(last)) == TracksFor(2544 + last)
  {
    hide Head, Directory, Bytes0, TracksFor;
    ArchiveHead(last, 0);
    ArchiveBefore(last, 13);
  }

  lemma ArchiveNoBoot(last: Byte)
    ensures HasDirectory(Archive(last)) && !AddsBoot(Archive(last))
  {
    hide Head, Archive;
    ArchiveHead(last, 0);
    assert IsBoot(BootHead(212));
  }

  /** What is made of one: thirteen files, and how much room the first ones take. */
  lemma ArchiveFiles(last: Byte, boot: seq<Page>)
    requires |boot| < 256
    ensures Whole(Archive(last)) && Countable(Archive(last)) && TracksOf(Archive(last)) == TracksFor(2544 + last)
    ensures var files := Files(Archive(last), boot);
            FileCount(Archive(last)) == |files| == 13 && Used(files, 12) == 2544 && |Flow(files)| == 2544 + last
  {
    hide Archive, Head, Flow, FileAt, Before, Files, Whole, AddsBoot, TracksFor;
    ArchiveWhole(last);
    ArchiveNoBoot(last);
    ArchiveBefore(last, 12);
    ArchiveBefore(last, 13);
    StartsAt(Archive(last), boot, 12);
    StartsAt(Archive(last), boot, 13);
    NoneInFront(last, boot);
    AllUsed(Files(Archive(last), boot));
  }

  lemma AllUsed(files: seq<File>)
    ensures Used(files, |files|) == |Flow(files)|
  {
    hide Flow;
    assert files[..|files|] == files;
  }

  lemma NoneInFront(last: Byte, boot: seq<Page>)
    requires Whole(Archive(last)) && !AddsBoot(Archive(last)) && |boot| < 256
    ensures BootFiles(Archive(last)) == 0 && BootPages(Archive(last), boot) == []
    ensures FileCount(Archive(last)) == Count(Archive(last))
  {
    hide Archive, Head, AddsBoot, Whole;
  }

  /** With an empty last file: it loads, the count says thirteen, and there is no thirteenth entry. */
  lemma FullDiskLosesFile(boot: seq<Page>, image: Image, deleted: Byte)
    requires |boot| < 256
    ensures Whole(Archive(0)) && Countable(Archive(0)) && TracksOf(Archive(0)) == 160
    ensures FileCount(Archive(0)) == |Files(Archive(0), boot)| == 13
    ensures !Entered(160, Files(Archive(0), boot), 12)
    ensures OnDisk(image, 160, Files(Archive(0), boot), 13, deleted) ==>
              Flat(image)[0x8E4] == 13 && forall x :: 192 <= x < 208 ==> Flat(image)[x] == 0
  {
    hide Archive, Flow, Used, Flat, OnDisk, Files, Whole, Countable;
    ArchiveFiles(0, boot);
    var files := Files(Archive(0), boot);
    LeftOut(160, files, 12);
    if OnDisk(image, 160, files, 13, deleted) {
      LeftOutInFile(image, 160, files, 13, deleted, 12);
      CountInFile(image, 160, files, 13, deleted);
    }
  }

  lemma CountInFile(image: Image, n: nat, files: seq<File>, count: Byte, deleted: Byte)
    requires OnDisk(image, n, files, count, deleted)
    ensures Flat(image)[0x8E4] == count
  {
    hide Flat, OnDisk, InUse, Count16;
    InfoInFile(image, n, files, count, deleted);
  }

  // ---------- the free count ----------

  /** For an archive: the free count is what is free exactly if its files take 2544 sectors at most. */
  lemma FreeCountRight(ptr: seq<Byte>, boot: seq<Page>)
    requires Whole(ptr) && Countable(ptr) && |boot| < 256
    ensures var n, used := TracksOf(ptr), InUse(TracksOf(ptr), Files(ptr, boot));
            Count16(used) == Size(n) - 16 - used <==> Before(ptr, Count(ptr)) <= 2544
  {
    hide Files, Before, Whole, InUse, Count16;
    CountableTracks(ptr);
    FreeCount(TracksOf(ptr), Files(ptr, boot));
  }

  /** With 32 sectors in the last file: the disk has 162 tracks and is full, and 65504 sectors are
      shown as free. */
  lemma FullDiskShowsRoom(boot: seq<Page>, image: Image, deleted: Byte)
    requires |boot| < 256
    ensures Whole(Archive(32)) && Countable(Archive(32)) && TracksOf(Archive(32)) == 162
    ensures |Flow(Files(Archive(32), boot))| == Size(162) - 16
    ensures OnDisk(image, 162, Files(Archive(32), boot), 13, deleted) ==>
              0x100 * (Flat(image)[0x8E6] as int) + Flat(image)[0x8E5] == 65504
  {
    hide Archive, Flow, Used, Flat, OnDisk, Files, Whole, Countable;
    ArchiveFiles(32, boot);
    if OnDisk(image, 162, Files(Archive(32), boot), 13, deleted) {
      InfoInFile(image, 162, Files(Archive(32), boot), 13, deleted);
    }
  }
}
