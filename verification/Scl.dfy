/** SCL archives, and what the disk made from one holds. */
module Scl {
  import opened Numbers
  import opened BitOps
  import opened FloppyLayout
  import opened FloppyDisk

  // ---------- files on a disk ----------

  /** A file: the first fourteen bytes of its directory entry, and its sectors. */
  datatype File = File(head: seq<Byte>, body: seq<Page>)

  predicate AreFiles(files: seq<File>) {
    forall i :: 0 <= i < |files| ==> |files[i].head| == 14
  }

  /** All sectors of all files, in order. */
  function Flow(files: seq<File>): (s: seq<Page>) {
    if files == [] then [] else Flow(files[..|files| - 1]) + files[|files| - 1].body
  }

  /** The sectors taken by the first `n` files. */
  function Used(files: seq<File>, n: nat): nat
    requires n <= |files|
  {
    |Flow(files[..n])|
  }

  /** The sector at which file `i` begins, counted from the beginning of the disk. */
  function Start(files: seq<File>, i: nat): nat
    requires i <= |files|
  {
    16 + Used(files, i)
  }

  function Entry(files: seq<File>, i: nat): (e: seq<Byte>)
    requires i < |files| && AreFiles(files) && Start(files, i) < 4096
    ensures |e| == 16
  {
    files[i].head + [Start(files, i) % 16, Start(files, i) / 16]
  }

  lemma {:induction false} FlowAppend(a: seq<File>, b: seq<File>)
    ensures Flow(a + b) == Flow(a) + Flow(b)
    decreases |b|
  {
    if b == [] {
      assert a + b == a;
    } else {
      FlowAppend(a, b[..|b| - 1]);
      assert (a + b)[..|a + b| - 1] == a + b[..|b| - 1];
    }
  }

  /** File `i` within the whole. */
  lemma FlowAt(files: seq<File>, i: nat)
    requires i < |files|
    ensures Used(files, i + 1) == Used(files, i) + |files[i].body| <= |Flow(files)|
    ensures Flow(files)[Used(files, i)..Used(files, i + 1)] == files[i].body
  {
    hide Flow;
    FlowNext(files, i);
    FlowAppend(files[..i + 1], files[i + 1..]);
    assert files == files[..i + 1] + files[i + 1..];
    var before, body := Flow(files[..i]), files[i].body;
    assert (before + body + Flow(files[i + 1..]))[|before|..|before| + |body|] == body;
  }

  lemma FlowNext(files: seq<File>, i: nat)
    requires i < |files|
    ensures Flow(files[..i + 1]) == Flow(files[..i]) + files[i].body
  {
    assert files[..i + 1][..i] == files[..i];
  }

  lemma UsedMonotone(files: seq<File>, i: nat, j: nat)
    requires i <= j <= |files|
    ensures Used(files, i) <= Used(files, j)
  {
    FlowAppend(files[..i], files[i..j]);
    assert files[..j] == files[..i] + files[i..j];
  }

  // ---------- the disk while it is being filled ----------

  /** The sectors of a disk of `n` tracks, counting sides. */
  function Size(n: nat): nat { 16 * n }

  /** What a disk's tracks are counted by: at least the usual 160, at most what a byte can count. */
  predicate TracksOk(n: nat) { 160 <= n < 256 }

  /** The `p`-th sector of a disk. */
  function PageAt(image: Image, p: nat): Page
    requires p < 16 * |image|
  {
    image[p / 16][p % 16]
  }

  /** Byte `b` of sector `s` of the first track when `cnt` entries have been written. */
  function DirByte(n: nat, files: seq<File>, cnt: nat, s: nat, b: nat): Byte
    requires TracksOk(n) && cnt <= |files| && AreFiles(files) && s < 16 && b < 256
    requires forall i :: 0 <= i < cnt ==> Start(files, i) < Size(n)
  {
    var i := 16 * s + b / 16;
    if i < cnt then assert Start(files, i) < Size(n); Entry(files, i)[b % 16] else NewPage(0, 0, s, FreeOf(n))[b]
  }

  /** `cnt` entries and the sectors before sector `p` are in place; all else is as formatted. */
  ghost predicate Progress(image: Image, n: nat, files: seq<File>, cnt: nat, p: nat) {
    |image| == n && TracksOk(n) && AreFiles(files) && cnt <= |files| && 16 <= p <= Size(n) && p - 16 <= |Flow(files)|
    && (forall i :: 0 <= i < cnt ==> Start(files, i) < Size(n))
    && (forall q :: 16 <= q < Size(n) ==> PageAt(image, q) == if q < p then Flow(files)[q - 16] else Blank())
    && (forall s, b :: 0 <= s < 16 && 0 <= b < 256 ==> image[0][s][b] == DirByte(n, files, cnt, s, b))
  }

  lemma Formatted(n: nat, files: seq<File>)
    requires TracksOk(n) && AreFiles(files)
    ensures Progress(NewImage(n), n, files, 0, 16)
  {
    hide InfoPage, FreeOf;
    var image := NewImage(n);
    forall q | 16 <= q < Size(n) ensures PageAt(image, q) == Blank() {
      assert image[q / 16][q % 16] == NewPage(q / 16 / 2, q / 16 % 2, q % 16, FreeOf(n));
    }
  }

  lemma AfterSector(image: Image, n: nat, files: seq<File>, cnt: nat, p: nat)
    requires Progress(image, n, files, cnt, p) && p < Size(n) && p - 16 < |Flow(files)|
    ensures Progress(Stored(image, p / 16, p % 16, 0, Flow(files)[p - 16]), n, files, cnt, p + 1)
  {
    hide Flow, Entry, NewPage, DirByte;
    var next := Stored(image, p / 16, p % 16, 0, Flow(files)[p - 16]);
    assert Overlay(PageAt(image, p), 0, Flow(files)[p - 16]) == Flow(files)[p - 16];
    forall q | 16 <= q < Size(n) ensures PageAt(next, q) == if q < p + 1 then Flow(files)[q - 16] else Blank() {
      assert PageAt(image, q) == if q < p then Flow(files)[q - 16] else Blank();
      if q / 16 == p / 16 && q % 16 == p % 16 { assert q == p; }
    }
    assert next[0] == image[0];
  }

  lemma AfterEntry(image: Image, n: nat, files: seq<File>, cnt: nat, p: nat)
    requires Progress(image, n, files, cnt, p) && cnt < |files| && cnt < 256 && p == Start(files, cnt) < Size(n)
    ensures Progress(Stored(image, 0, cnt / 16, cnt % 16 * 16, Entry(files, cnt)), n, files, cnt + 1, p)
  {
    hide Flow, Entry, NewPage;
    var next := Stored(image, 0, cnt / 16, cnt % 16 * 16, Entry(files, cnt));
    forall s, b | 0 <= s < 16 && 0 <= b < 256 ensures next[0][s][b] == DirByte(n, files, cnt + 1, s, b) {
      assert image[0][s][b] == DirByte(n, files, cnt, s, b);
      Slot(cnt, s, b);
    }
    forall q | 16 <= q < Size(n) ensures PageAt(next, q) == PageAt(image, q) { assert q / 16 >= 1; }
  }

  /** Where a directory entry lies. */
  lemma Slot(cnt: nat, s: nat, b: nat)
    requires b < 256
    ensures s == cnt / 16 && cnt % 16 * 16 <= b < cnt % 16 * 16 + 16 <==> 16 * s + b / 16 == cnt
    ensures 16 * s + b / 16 == cnt ==> b - cnt % 16 * 16 == b % 16
  {
  }

  // ---------- the finished disk ----------

  /** The sectors in use: all that the files ask for, or all there are. */
  function InUse(n: nat, files: seq<File>): nat
    requires n > 0
  {
    Min(|Flow(files)|, Size(n) - 16)
  }

  /** The free count as it is kept: down from 2544, in sixteen bits. */
  function Count16(used: nat): (f: nat)
    ensures f < 0x1_0000
  {
    (2544 - used) % 0x1_0000
  }

  /** A file gets its directory entry unless the disk was full before it. */
  predicate Entered(n: nat, files: seq<File>, i: nat) {
    i < |files| && Start(files, i) < Size(n)
  }

  /** The bytes that are updated last, in the information sector. */
  predicate InfoByte(s: nat, b: nat) {
    s == 8 && b in {0xE1, 0xE2, 0xE4, 0xE5, 0xE6, 0xF4}
  }

  function InfoValue(used: nat, count: Byte, deleted: Byte, b: nat): Byte
    requires used < 4080
  {
    if b == 0xE1 then (16 + used) % 16
    else if b == 0xE2 then (16 + used) / 16
    else if b == 0xE4 then count
    else if b == 0xE5 then Count16(used) % 0x100
    else if b == 0xE6 then Count16(used) / 0x100
    else deleted
  }

  /** Byte `b` of sector `s` of the first track in the end. */
  function FinalByte(n: nat, files: seq<File>, count: Byte, deleted: Byte, s: nat, b: nat): Byte
    requires TracksOk(n) && AreFiles(files) && s < 16 && b < 256
  {
    var i := 16 * s + b / 16;
    if InfoByte(s, b) then InfoValue(InUse(n, files), count, deleted, b)
    else if Entered(n, files, i) then Entry(files, i)[b % 16]
    else NewPage(0, 0, s, FreeOf(n))[b]
  }

  /** Every byte of a disk of `n` tracks that holds `files`, as far as they go on it. */
  ghost predicate OnDisk(image: Image, n: nat, files: seq<File>, count: Byte, deleted: Byte) {
    |image| == n && TracksOk(n) && AreFiles(files)
    && (forall q :: 16 <= q < Size(n) ==>
          PageAt(image, q) == if q - 16 < |Flow(files)| then Flow(files)[q - 16] else Blank())
    && (forall s, b :: 0 <= s < 16 && 0 <= b < 256 ==> image[0][s][b] == FinalByte(n, files, count, deleted, s, b))
  }

  /** The last step: the information sector. */
  lemma Finished(image: Image, n: nat, files: seq<File>, cnt: nat, p: nat, count: Byte, deleted: Byte, page: Page)
    requires Progress(image, n, files, cnt, p) && p == 16 + InUse(n, files)
    requires cnt == |files| || Start(files, cnt) >= Size(n)
    requires forall b :: 0 <= b < 256 ==>
               page[b] == if InfoByte(8, b) then InfoValue(p - 16, count, deleted, b) else image[0][8][b]
    ensures OnDisk(Stored(image, 0, 8, 0, page), n, files, count, deleted)
  {
    hide Flow, Entry, NewPage, InfoValue, InfoByte;
    var last := Stored(image, 0, 8, 0, page);
    assert Overlay(image[0][8], 0, page) == page;
    forall q | 16 <= q < Size(n) ensures PageAt(last, q) == PageAt(image, q) { assert q / 16 >= 1; }
    forall s, b | 0 <= s < 16 && 0 <= b < 256 ensures last[0][s][b] == FinalByte(n, files, count, deleted, s, b) {
      assert image[0][s][b] == DirByte(n, files, cnt, s, b);
      InfoOnly(s, b);
      EnteredBefore(n, files, cnt, 16 * s + b / 16);
    }
  }

  lemma InfoOnly(s: nat, b: nat)
    ensures InfoByte(s, b) ==> s == 8
    ensures InfoByte(s, b) <==> s == 8 && InfoByte(8, b)
  {
  }

  lemma EnteredBefore(n: nat, files: seq<File>, cnt: nat, i: nat)
    requires cnt <= |files| && forall j :: 0 <= j < cnt ==> Start(files, j) < Size(n)
    requires cnt == |files| || Start(files, cnt) >= Size(n)
    ensures Entered(n, files, i) <==> i < cnt
  {
    hide Flow;
    if cnt <= i < |files| { UsedMonotone(files, cnt, i); }
  }
}
