/** Which archives get a boot file, and what it does to the image. */
module SclBoot {
  import opened Numbers
  import opened BitOps
  import opened FloppyLayout
  import opened FloppyDisk
  import opened Scl
  import opened SclArchive
  import opened SclLoader
  import opened SclImage

  // ---------- texts ----------

  /** The bytes are those of a text. */
  predicate Spells(s: seq<Byte>, text: string) {
    |s| == |text| && forall i :: 0 <= i < |s| ==> s[i] == text[i] as int
  }

  lemma Texts()
    ensures Spells(MAGIC, "SINCLAIR") && Spells(BOOT, "boot    b") && Spells(NAME, "MiSTer  ")
    ensures forall len: Byte :: Spells(BootHead(len)[..9], "boot    B") && BootHead(len)[9..] == [0xB4, 0, 0xB4, 0, len]
  {
  }

  // ---------- what a boot file is ----------

  /** A letter, which is given as a capital, in either case; any other character as it is. */
  predicate SameLetter(b: Byte, c: char) {
    b == c as int || ('A' <= c <= 'Z' && b == c as int - 'A' as int + 'a' as int)
  }

  /** An entry counts as the boot file's exactly if its name and type are those nine characters, the
      letters in either case. */
  lemma IsBootExactly(head: seq<Byte>)
    requires |head| == 14
    ensures IsBoot(head) <==> forall i :: 0 <= i < 9 ==> SameLetter(head[i], "BOOT    B"[i])
  {
    var text := "BOOT    B";
    forall i | 0 <= i < 9 ensures Lower(head[i]) == BOOT[i] <==> SameLetter(head[i], text[i]) {
    }
  }

  /** Two such entries have the same name and type, but for the case of letters. */
  lemma BootsAgree(a: seq<Byte>, b: seq<Byte>, i: nat)
    requires |a| == 14 && |b| == 14 && IsBoot(a) && IsBoot(b) && i < 9
    ensures Lower(a[i]) == Lower(b[i])
    ensures a[i] == b[i] || (65 <= a[i] <= 90 && b[i] == a[i] + 32) || (65 <= b[i] <= 90 && a[i] == b[i] + 32)
  {
  }

  /** The built-in file is one. */
  lemma BuiltInIsBoot(len: Byte)
    ensures IsBoot(BootHead(len))
    ensures forall head :: |head| == 14 && Spells(head[..9], "BOOT    B") ==> IsBoot(head)
  {
  }

  /** It is put in front exactly if no entry names one and, with it, there are 127 entries at most,
      the deleted ones counting twice. */
  lemma AddsExactly(ptr: seq<Byte>)
    requires HasDirectory(ptr)
    ensures AddsBoot(ptr) <==> (forall i :: 0 <= i < Count(ptr) ==> !IsBoot(Head(ptr, i)))
                               && Count(ptr) + Deleted(ptr, Count(ptr)) + 1 <= 127
  {
    hide Head, IsBoot, Deleted;
  }

  /** The deleted entries are those whose name begins with byte 1. */
  lemma {:induction false} DeletedCount(ptr: seq<Byte>, n: nat)
    requires HasDirectory(ptr) && n <= Count(ptr)
    ensures Deleted(ptr, n) == |DeletedOf(ptr, n)|
  {
    hide Head;
    if n == 0 {
    } else {
      DeletedCount(ptr, n - 1);
      assert DeletedOf(ptr, n) == DeletedOf(ptr, n - 1) + if Head(ptr, n - 1)[0] == 1 then {n - 1} else {};
    }
  }

  ghost function DeletedOf(ptr: seq<Byte>, n: nat): set<nat>
    requires HasDirectory(ptr) && n <= Count(ptr)
  {
    set i: nat | i < n && Head(ptr, i)[0] == 1
  }

  // ---------- in the image ----------

  /** With it, the image begins with its entry, and its sectors are those behind the directory; the
      count has one more file than the archive. */
  lemma BootInFront(image: Image, ptr: seq<Byte>, boot: seq<Page>, deleted: Byte)
    requires Whole(ptr) && Countable(ptr) && |boot| < 256 && AddsBoot(ptr)
    requires OnDisk(image, TracksOf(ptr), Files(ptr, boot), FileCount(ptr), deleted)
    ensures Spells(Flat(image)[..9], "boot    B")
    ensures Flat(image)[0x1000..0x1000 + 256 * |boot|] == FlatPages(boot)
    ensures Flat(image)[0x8E4] == Count(ptr) + 1
  {
    hide Flat, FlatPages, OnDisk, Files, AddsBoot, Before, TracksOf, Used, Countable, Start, BootHead;
    var n, files := TracksOf(ptr), Files(ptr, boot);
    Placed(ptr, boot, 0);
    FirstStart(files);
    CountableTracks(ptr);
    FirstFile(image, n, files, FileCount(ptr), deleted, boot);
  }

  lemma FirstFile(image: Image, n: nat, files: seq<File>, count: Byte, deleted: Byte, boot: seq<Page>)
    requires OnDisk(image, n, files, count, deleted) && |boot| < 256
    requires files != [] && files[0] == File(BootHead(|boot|), boot) && Start(files, 0) == 16
    ensures Spells(Flat(image)[..9], "boot    B")
    ensures Flat(image)[0x1000..0x1000 + 256 * |boot|] == FlatPages(boot)
    ensures Flat(image)[0x8E4] == count
  {
    hide Flat, FlatPages, Start, BootHead, Flow;
    EntryInFile(image, n, files, count, deleted, 0);
    FileContiguous(image, n, files, count, deleted, 0);
    CountInFile(image, n, files, count, deleted);
    assert boot[..|boot|] == boot;
    Texts();
    assert Flat(image)[..9] == Entry(files, 0)[..9] == BootHead(|boot|)[..9];
  }

  // An archive whose only file is called "game    B" and has one sector.

  /** G, A, M and E in lower case, four spaces, and B; no start, a length of 256 bytes, a sector. */
  const GAME: seq<Byte> := [103, 97, 109, 101, 32, 32, 32, 32, 66, 0, 0, 0, 1, 1]

  function GameArchive(): (s: seq<Byte>)
    ensures |s| == 283
  {
    MAGIC + [1] + GAME + Bytes0(260)
  }

  lemma GameHead()
    ensures HasDirectory(GameArchive()) && Count(GameArchive()) == 1 && Head(GameArchive(), 0) == GAME
    ensures Spells(GAME[..9], "game    B") && !IsBoot(GAME)
  {
    assert GameArchive()[..8] == MAGIC;
    assert Lower(GAME[0]) != BOOT[0];
  }

  lemma GameWhole()
    ensures Whole(GameArchive()) && Countable(GameArchive()) && AddsBoot(GameArchive())
    ensures FileCount(GameArchive()) == 2
  {
    hide GameArchive, IsBoot, Head;
    GameHead();
    var ptr := GameArchive();
    assert Before(ptr, 0) == 0;
    assert Before(ptr, 1) == 1;
    assert Deleted(ptr, 0) == 0;
    assert Deleted(ptr, 1) == 0;
  }

  /** The disk gets two files, the first of them the boot file. */
  lemma GameGetsBoot(image: Image, boot: seq<Page>, deleted: Byte)
    requires |boot| < 256
    ensures Whole(GameArchive()) && Countable(GameArchive())
    ensures |Files(GameArchive(), boot)| == 2 == FileCount(GameArchive())
    ensures Files(GameArchive(), boot)[0] == File(BootHead(|boot|), boot) && Files(GameArchive(), boot)[1].head == GAME
    ensures OnDisk(image, TracksOf(GameArchive()), Files(GameArchive(), boot), 2, deleted) ==>
              Spells(Flat(image)[..9], "boot    B") && Flat(image)[0x8E4] == 2
  {
    hide GameArchive, Flat, OnDisk, Files, TracksOf, Whole, Countable, AddsBoot, BootHead, FileAt, Used;
    GameWhole();
    GameHead();
    Placed(GameArchive(), boot, 0);
    FileBody(GameArchive(), 0);
    if OnDisk(image, TracksOf(GameArchive()), Files(GameArchive(), boot), 2, deleted) {
      BootInFront(image, GameArchive(), boot, deleted);
    }
  }

  // ---------- the size of the disk ----------

  /** The disk has whole cylinders, 80 of them or more, and no more than its files and the first track
      need. */
  lemma LeastTracks(total: nat, m: nat)
    ensures TracksFor(total) % 2 == 0 && TracksFor(total) >= 160 && 16 * TracksFor(total) >= 16 + total
    ensures m % 2 == 0 && m >= 160 && 16 * m >= 16 + total ==> m >= TracksFor(total)
  {
  }
}
