/** Archives made of files, and that loading them gives these files back. */
module SclFormat {
  import opened Numbers
  import opened BitOps
  import opened FloppyDisk
  import opened Scl
  import opened SclArchive
  import opened SclLoader
  import opened SclImage

  // ---------- an archive as it is written ----------

  /** Files that an archive can hold: up to 255, and the last byte of an entry says how many sectors
      the file has. */
  predicate Archivable(files: seq<File>) {
    |files| < 256 && AreFiles(files)
    && forall i :: 0 <= i < |files| ==> SizeShown(files[i])
  }

  predicate SizeShown(f: File)
    requires |f.head| == 14
  {
    f.head[13] == |f.body|
  }

  function Heads(files: seq<File>): (s: seq<Byte>)
    requires AreFiles(files)
    ensures |s| == 14 * |files|
  {
    if files == [] then [] else Heads(files[..|files| - 1]) + files[|files| - 1].head
  }

  /** All but the checksum: the word, how many files there are, their entries, and their sectors. */
  function Body(files: seq<File>): (s: seq<Byte>)
    requires Archivable(files)
  {
    MAGIC + [|files|] + Heads(files) + FlatPages(Flow(files))
  }

  /** A 32-bit number, lowest byte first. */
  function Little(v: nat): (s: seq<Byte>)
    requires v < WRAP
    ensures |s| == 4
  {
    [v % 0x100, v / 0x100 % 0x100, v / 0x1_0000 % 0x100, v / 0x100_0000]
  }

  // ---------- the parts of an archive ----------

  lemma {:induction false} HeadsAt(files: seq<File>, i: nat)
    requires AreFiles(files) && i < |files|
    ensures Heads(files)[14 * i..14 * i + 14] == files[i].head
  {
    var n := |files| - 1;
    if i == n {
    } else {
      HeadsAt(files[..n], i);
      assert (Heads(files[..n]) + files[n].head)[14 * i..14 * i + 14] == Heads(files[..n])[14 * i..14 * i + 14];
    }
  }

  lemma Lengths(files: seq<File>)
    requires Archivable(files)
    ensures |Body(files)| == 9 + 14 * |files| + 256 * |Flow(files)|
  {
    hide Heads, FlatPages, Flow;
  }

  lemma HeadOf(files: seq<File>, check: seq<Byte>, i: nat)
    requires Archivable(files) && |check| == 4 && i < |files|
    ensures var ptr := Body(files) + check;
            HasDirectory(ptr) && Count(ptr) == |files| && Head(ptr, i) == files[i].head
  {
    hide Heads, FlatPages, Flow;
    HasCount(files, check);
    var ptr := Body(files) + check;
    HeadsAt(files, i);
    forall j | 0 <= j < 14 ensures ptr[9 + 14 * i..23 + 14 * i][j] == files[i].head[j] {
      assert ptr[9 + 14 * i + j] == Heads(files)[14 * i + j];
      assert Heads(files)[14 * i..14 * i + 14][j] == files[i].head[j];
    }
  }

  lemma HasCount(files: seq<File>, check: seq<Byte>)
    requires Archivable(files) && |check| == 4
    ensures var ptr := Body(files) + check; HasDirectory(ptr) && Count(ptr) == |files|
  {
    hide Heads, FlatPages, Flow;
    assert (Body(files) + check)[..8] == MAGIC;
  }

  lemma {:induction false} BeforeOf(files: seq<File>, check: seq<Byte>, n: nat)
    requires Archivable(files) && |check| == 4 && n <= |files|
    ensures var ptr := Body(files) + check;
            HasDirectory(ptr) && Count(ptr) == |files| && Before(ptr, n) == Used(files, n)
  {
    hide Body, Head, Flow;
    HasCount(files, check);
    if n == 0 {
      NoneUsed(files);
    } else {
      BeforeOf(files, check, n - 1);
      HeadOf(files, check, n - 1);
      FlowAt(files, n - 1);
      assert SizeShown(files[n - 1]);
    }
  }

  lemma NoneUsed(files: seq<File>)
    ensures Used(files, 0) == 0
  {
    assert files[..0] == [];
  }

  lemma IsWhole(files: seq<File>, check: seq<Byte>)
    requires Archivable(files) && |check| == 4
    ensures var ptr := Body(files) + check;
            Whole(ptr) && Count(ptr) == |files| && DataAt(ptr) + 256 * Before(ptr, Count(ptr)) == |Body(files)|
  {
    hide Body, Head, Flow, Before;
    BeforeOf(files, check, |files|);
    AllUsed(files);
    Lengths(files);
  }

  lemma SectorOf(files: seq<File>, check: seq<Byte>, p: nat)
    requires Archivable(files) && |check| == 4 && p < |Flow(files)|
    ensures var ptr, off := Body(files) + check, 9 + 14 * |files| + 256 * p;
            off + 256 <= |ptr| && ptr[off..off + 256] == Flow(files)[p]
  {
    hide Heads, FlatPages, Flow;
    var ptr, off := Body(files) + check, 9 + 14 * |files| + 256 * p;
    forall b | 0 <= b < 256 ensures ptr[off + b] == Flow(files)[p][b] {
      PagesByte(Flow(files), p, b);
      assert ptr[off + b] == FlatPages(Flow(files))[256 * p + b];
    }
  }

  lemma FileOf(files: seq<File>, check: seq<Byte>, i: nat)
    requires Archivable(files) && |check| == 4 && i < |files|
    ensures var ptr := Body(files) + check; Whole(ptr) && i < Count(ptr) && FileAt(ptr, i) == files[i]
  {
    hide Body, Head, Flow, Before, Whole, FileAt;
    var ptr := Body(files) + check;
    IsWhole(files, check);
    HeadOf(files, check, i);
    BeforeOf(files, check, i);
    FileBody(ptr, i);
    FlowAt(files, i);
    assert SizeShown(files[i]);
    forall j | 0 <= j < |files[i].body| ensures FileAt(ptr, i).body[j] == files[i].body[j] {
      SectorOf(files, check, Used(files, i) + j);
      assert Flow(files)[Used(files, i)..Used(files, i + 1)][j] == files[i].body[j];
    }
  }

  // ---------- the checksum ----------

  lemma {:induction false} SumBound(s: seq<Byte>)
    ensures Sum(s) <= 255 * |s|
  {
    if s == [] {
    } else {
      SumBound(s[..|s| - 1]);
    }
  }

  lemma {:induction false} UsedBound(files: seq<File>, n: nat)
    requires Archivable(files) && n <= |files|
    ensures Used(files, n) <= 255 * n
  {
    hide Flow;
    if n == 0 {
      NoneUsed(files);
    } else {
      UsedBound(files, n - 1);
      FlowAt(files, n - 1);
      assert SizeShown(files[n - 1]);
    }
  }

  /** No archive's sum goes beyond 32 bits. */
  lemma SumFits(files: seq<File>)
    requires Archivable(files)
    ensures Sum(Body(files)) < WRAP
  {
    hide Sum, Body, Flow;
    SumBound(Body(files));
    Lengths(files);
    AllUsed(files);
    UsedBound(files, |files|);
  }

  lemma LittleRead(s: seq<Byte>, check: seq<Byte>, v: nat)
    requires |check| == 4 && v < WRAP
    ensures Long(s + check, |s|) == v <==> check == Little(v)
  {
    var a: nat, b: nat, c: nat, d: nat := check[0], check[1], check[2], check[3];
    assert Long(s + check, |s|) == a + 0x100 * b + 0x1_0000 * c + 0x100_0000 * d;
    Digits(a, b, c, d);
    DigitsBack(v);
  }

  lemma Digits(a: Byte, b: Byte, c: Byte, d: Byte)
    ensures a + 0x100 * b + 0x1_0000 * c + 0x100_0000 * d < WRAP
    ensures Little(a + 0x100 * b + 0x1_0000 * c + 0x100_0000 * d) == [a, b, c, d]
  {
    var v := a + 0x100 * b + 0x1_0000 * c + 0x100_0000 * d;
    assert v / 0x100 == b + 0x100 * c + 0x1_0000 * d;
    assert v / 0x1_0000 == c + 0x100 * d;
    assert v / 0x100_0000 == d;
  }

  lemma DigitsBack(v: nat)
    requires v < WRAP
    ensures Long(Little(v), 0) == v
  {
    assert v / 0x100 / 0x100 == v / 0x1_0000 && v / 0x1_0000 / 0x100 == v / 0x100_0000;
  }

  // ---------- loading it ----------

  /** An archive made of files holds those files, in their order, and is taken for whole; there is a
      warning exactly if its last four bytes are not the sum of all others, lowest byte first. */
  lemma Reloaded(files: seq<File>, check: seq<Byte>)
    requires Archivable(files) && |check| == 4
    ensures Sum(Body(files)) < WRAP
    ensures var ptr := Body(files) + check;
            Outcome(ptr) == Loaded(check != Little(Sum(Body(files)))) && Whole(ptr)
            && Archived(ptr, Count(ptr)) == files
  {
    hide Body, Flow, Before, Sum, Long, Head, FileAt;
    var ptr := Body(files) + check;
    IsWhole(files, check);
    SumFits(files);
    LittleRead(Body(files), check, Sum(Body(files)));
    assert ptr[..|Body(files)|] == Body(files);
    forall i | 0 <= i < |files| ensures FileAt(ptr, i) == files[i] { FileOf(files, check, i); }
  }

  /** What is cut off anywhere is refused as corrupt. */
  lemma Truncated(files: seq<File>, check: seq<Byte>, n: nat)
    requires Archivable(files) && |check| == 4 && n < |Body(files)| + 4
    ensures Outcome((Body(files) + check)[..n]) == Corrupt
  {
    hide Body, Flow, Before, Sum, Long, Head;
    var ptr := Body(files) + check;
    var short := ptr[..n];
    IsWhole(files, check);
    if n >= 13 {
      assert short[..8] == ptr[..8];
      if HasDirectory(short) { SameBefore(ptr, n, Count(ptr)); }
    }
  }

  lemma {:induction false} SameBefore(ptr: seq<Byte>, n: nat, k: nat)
    requires n <= |ptr| && HasDirectory(ptr) && HasDirectory(ptr[..n]) && k <= Count(ptr)
    ensures Count(ptr[..n]) == Count(ptr) && Before(ptr[..n], k) == Before(ptr, k)
  {
    if k == 0 {
    } else {
      SameBefore(ptr, n, k - 1);
      assert ptr[..n][9 + 14 * (k - 1)..23 + 14 * (k - 1)] == ptr[9 + 14 * (k - 1)..23 + 14 * (k - 1)];
    }
  }

  /** And what does not begin with the word is refused for that, if there is enough of it. */
  lemma OtherFormat(ptr: seq<Byte>)
    ensures Outcome(ptr) == BadFormat <==> |ptr| >= 13 && ptr[..8] != Codes("SINCLAIR")
  {
    assert Codes("SINCLAIR") == MAGIC;
  }
}
