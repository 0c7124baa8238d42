/** The bytes of an SCL archive, and the files in it. */
module SclArchive {
  import opened BitOps
  import opened FloppyLayout
  import opened Scl

  /** "SINCLAIR" */
  const MAGIC: seq<Byte> := [83, 73, 78, 67, 76, 65, 73, 82]

  /** "boot    b", the name and type of a boot file in lower case. */
  const BOOT: seq<Byte> := [98, 111, 111, 116, 32, 32, 32, 32, 98]

  /** The directory entry of the built-in boot file, which has `len` sectors. */
  function BootHead(len: Byte): (h: seq<Byte>)
    ensures |h| == 14
  {
    [98, 111, 111, 116, 32, 32, 32, 32, 66, 0xB4, 0, 0xB4, 0, len]
  }

  function Lower(c: Byte): Byte {
    if 65 <= c <= 90 then c + 32 else c
  }

  predicate IsBoot(head: seq<Byte>)
    requires |head| == 14
  {
    forall i :: 0 <= i < 9 ==> Lower(head[i]) == BOOT[i]
  }

  // ---------- the layout of an archive ----------

  function Count(ptr: seq<Byte>): Byte
    requires |ptr| >= 13
  {
    ptr[8]
  }

  /** The archive has its header and a whole directory. */
  predicate HasDirectory(ptr: seq<Byte>) {
    |ptr| >= 13 && ptr[..8] == MAGIC && |ptr| >= 13 + 14 * Count(ptr)
  }

  function Head(ptr: seq<Byte>, i: nat): (h: seq<Byte>)
    requires HasDirectory(ptr) && i < Count(ptr)
    ensures |h| == 14
  {
    ptr[9 + 14 * i..23 + 14 * i]
  }

  /** The sectors of the first `n` files together. */
  function Before(ptr: seq<Byte>, n: nat): nat
    requires HasDirectory(ptr) && n <= Count(ptr)
  {
    if n == 0 then 0 else Before(ptr, n - 1) + Head(ptr, n - 1)[13]
  }

  function DataAt(ptr: seq<Byte>): nat
    requires HasDirectory(ptr)
  {
    9 + 14 * Count(ptr)
  }

  /** Every file is there, and four bytes more. */
  predicate Whole(ptr: seq<Byte>) {
    HasDirectory(ptr) && |ptr| >= DataAt(ptr) + 256 * Before(ptr, Count(ptr)) + 4
  }

  lemma {:induction false} BeforeMonotone(ptr: seq<Byte>, i: nat, n: nat)
    requires HasDirectory(ptr) && i <= n <= Count(ptr)
    ensures Before(ptr, i) <= Before(ptr, n)
    decreases n
  {
    hide Head;
    if i >= n {
    } else {
      BeforeMonotone(ptr, i, n - 1);
    }
  }

  /** `n` sectors from offset `off` on. */
  function Sectors(ptr: seq<Byte>, off: nat, n: nat): (s: seq<Page>)
    requires off + 256 * n <= |ptr|
    ensures |s| == n && forall j :: 0 <= j < n ==> s[j] == ptr[off + 256 * j..off + 256 * j + 256]
  {
    seq(n, j requires 0 <= j < n => SectorAt(ptr, off, j))
  }

  function SectorAt(ptr: seq<Byte>, off: nat, j: nat): Page
    requires off + 256 * j + 256 <= |ptr|
  {
    ptr[off + 256 * j..off + 256 * j + 256]
  }

  function Deleted(ptr: seq<Byte>, n: nat): (d: nat)
    requires HasDirectory(ptr) && n <= Count(ptr)
    ensures d <= n
  {
    if n == 0 then 0 else Deleted(ptr, n - 1) + if Head(ptr, n - 1)[0] == 1 then 1 else 0
  }

  predicate NoBoot(ptr: seq<Byte>, n: nat)
    requires HasDirectory(ptr) && n <= Count(ptr)
  {
    forall i :: 0 <= i < n ==> !IsBoot(Head(ptr, i))
  }

  /** Whether a boot file is put in front. */
  predicate AddsBoot(ptr: seq<Byte>)
    requires HasDirectory(ptr)
  {
    NoBoot(ptr, Count(ptr)) && Count(ptr) + Deleted(ptr, Count(ptr)) < 127
  }

  function FileAt(ptr: seq<Byte>, i: nat): (f: File)
    requires Whole(ptr) && i < Count(ptr)
    ensures |f.head| == 14 && |f.body| == f.head[13]
  {
    BeforeMonotone(ptr, i + 1, Count(ptr));
    File(Head(ptr, i), Sectors(ptr, DataAt(ptr) + 256 * Before(ptr, i), Head(ptr, i)[13]))
  }

  function Archived(ptr: seq<Byte>, n: nat): (f: seq<File>)
    requires Whole(ptr) && n <= Count(ptr)
    ensures |f| == n && AreFiles(f)
  {
    seq(n, i requires 0 <= i < n => FileAt(ptr, i))
  }

  /** All files that go to the disk. */
  function Files(ptr: seq<Byte>, boot: seq<Page>): (f: seq<File>)
    requires Whole(ptr) && |boot| < 256
    ensures AreFiles(f)
  {
    (if AddsBoot(ptr) then [File(BootHead(|boot|), boot)] else []) + Archived(ptr, Count(ptr))
  }

  // ---------- the files' sectors follow one another in the archive ----------

  lemma {:induction false} FlowArchived(ptr: seq<Byte>, n: nat)
    requires Whole(ptr) && n <= Count(ptr)
    ensures DataAt(ptr) + 256 * Before(ptr, n) <= |ptr|
    ensures Flow(Archived(ptr, n)) == Sectors(ptr, DataAt(ptr), Before(ptr, n))
  {
    hide FileAt, Head, DataAt, AddsBoot;
    BeforeMonotone(ptr, n, Count(ptr));
    if n == 0 {
    } else {
      FlowArchived(ptr, n - 1);
      var a := Archived(ptr, n);
      assert a[..n - 1] == Archived(ptr, n - 1);
      assert a[n - 1] == FileAt(ptr, n - 1);
      FileBody(ptr, n - 1);
      assert Sectors(ptr, DataAt(ptr), Before(ptr, n))
          == Sectors(ptr, DataAt(ptr), Before(ptr, n - 1)) + FileAt(ptr, n - 1).body;
    }
  }

  lemma FileBody(ptr: seq<Byte>, i: nat)
    requires Whole(ptr) && i < Count(ptr)
    ensures var f := FileAt(ptr, i);
            |f.body| == Head(ptr, i)[13] && f.head == Head(ptr, i) && Before(ptr, i + 1) <= Before(ptr, Count(ptr))
            && forall j :: 0 <= j < |f.body| ==> f.body[j] == SectorAt(ptr, DataAt(ptr), Before(ptr, i) + j)
  {
    hide Head;
    BeforeMonotone(ptr, i + 1, Count(ptr));
  }

  // ---------- with the boot file in front ----------

  function BootFiles(ptr: seq<Byte>): nat
    requires HasDirectory(ptr)
  {
    if AddsBoot(ptr) then 1 else 0
  }

  function BootPages(ptr: seq<Byte>, boot: seq<Page>): seq<Page>
    requires HasDirectory(ptr)
  {
    if AddsBoot(ptr) then boot else []
  }

  lemma FlowFiles(ptr: seq<Byte>, boot: seq<Page>)
    requires Whole(ptr) && |boot| < 256
    ensures DataAt(ptr) + 256 * Before(ptr, Count(ptr)) <= |ptr|
    ensures Flow(Files(ptr, boot)) == BootPages(ptr, boot) + Sectors(ptr, DataAt(ptr), Before(ptr, Count(ptr)))
  {
    hide FileAt, Head, DataAt, AddsBoot, Before, Sectors;
    FlowArchived(ptr, Count(ptr));
    FlowAppend(if AddsBoot(ptr) then [File(BootHead(|boot|), boot)] else [], Archived(ptr, Count(ptr)));
    FlowOne(File(BootHead(|boot|), boot));
  }

  lemma FlowOne(f: File)
    ensures Flow([f]) == f.body
  {
    assert [f][..0] == [];
  }

  /** Where an archived file stands among all files. */
  lemma Placed(ptr: seq<Byte>, boot: seq<Page>, i: nat)
    requires Whole(ptr) && |boot| < 256 && i <= Count(ptr)
    ensures var files := Files(ptr, boot); var k := BootFiles(ptr) + i;
            |files| == BootFiles(ptr) + Count(ptr)
            && Used(files, k) == |BootPages(ptr, boot)| + Before(ptr, i)
            && (i < Count(ptr) ==> files[k] == FileAt(ptr, i))
    ensures AddsBoot(ptr) ==> Files(ptr, boot)[0] == File(BootHead(|boot|), boot) && Used(Files(ptr, boot), 0) == 0
  {
    hide FileAt, Head, DataAt, AddsBoot, Before, Flow;
    var files, k := Files(ptr, boot), BootFiles(ptr) + i;
    var b := if AddsBoot(ptr) then [File(BootHead(|boot|), boot)] else [];
    assert files[..k] == b + Archived(ptr, i);
    FlowAppend(b, Archived(ptr, i));
    FlowArchived(ptr, i);
    FlowOne(File(BootHead(|boot|), boot));
    FlowEmpty();
    assert files[..0] == [];
  }

  lemma FlowEmpty()
    ensures Flow([]) == []
  {
  }
}
