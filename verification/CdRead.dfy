/** The packet READ command: a range of sectors, sent in chunks that the host asks for one by one. */
module CdRead {
  import opened Numbers
  import opened BitOps
  import opened CdTracks
  import IdeTransfer

  type UserPage = p: seq<Byte> | |p| == 2048 witness seq(2048, _ => 0)

  datatype Phase = Idle | Begin | WaitRead

  function Zeros(): UserPage {
    seq(2048, _ => 0)
  }

  // ---------- chunks ----------

  /** The size of the next chunk: at most eight sectors, at most what the host takes at once, but
      at least one. */
  function Chunk(count: nat, limit: nat): (c: nat)
    ensures c <= count
    ensures count > 0 ==> 1 <= c <= 8 && (c * 2048 <= limit || c == 1)
    ensures count > 0 ==> c == count || c == 8 || (c + 1) * 2048 > limit
  {
    var most := if count > 8 then 8 else count;
    if most * 2048 <= limit then most else if limit < 2048 then Min(most, 1) else limit / 2048
  }

  /** What so many sectors come to, in 32 bits. */
  function InBytes(count: nat): (b: nat)
    ensures count <= 8 ==> b == count * 2048
    ensures count == 0x4000_0000 ==> b == 0
  {
    U32(count * 2048)
  }

  /** The counts for which the test of the size fails. */
  predicate Misjudged(count: nat) {
    count > 8 && count % 0x4000_0000 <= 8
  }

  /** What is left of a count after `k` chunks by the rule. */
  function Left(count: nat, limit: nat, k: nat): nat {
    if k == 0 then count else Left(count, limit, k - 1) - Chunk(Left(count, limit, k - 1), limit)
  }

  predicate MisjudgedAfter(count: nat, limit: nat, k: nat) { Misjudged(Left(count, limit, k)) }

  /** A count comes to one of those, sooner or later, exactly if it is one of 2^30 or more. */
  lemma HugeReads(count: nat, limit: nat)
    requires count < WRAP
    ensures (forall k: nat :: !MisjudgedAfter(count, limit, k)) <==> count < 0x4000_0000
  {
    hide Chunk;
    if count < 0x4000_0000 {
      forall k: nat ensures Left(count, limit, k) <= count { LeftLess(count, limit, k); }
    } else {
      assert Left(count, limit, 0) == count;
      var k := SomeMisjudged(count, limit, 0);
      assert MisjudgedAfter(count, limit, k);
    }
  }

  lemma {:induction false} LeftLess(count: nat, limit: nat, k: nat)
    ensures Left(count, limit, k) <= count
  {
    if k == 0 {
    } else {
      LeftLess(count, limit, k - 1);
    }
  }

  lemma {:induction false} SomeMisjudged(count: nat, limit: nat, k: nat) returns (m: nat)
    requires 0x4000_0000 <= Left(count, limit, k)
    ensures Misjudged(Left(count, limit, m))
    decreases Left(count, limit, k)
  {
    if Misjudged(Left(count, limit, k)) {
      m := k;
    } else {
      NotBelow(Left(count, limit, k), Chunk(Left(count, limit, k), limit));
      m := SomeMisjudged(count, limit, k + 1);
    }
  }

  lemma NotBelow(c: nat, chunk: nat)
    requires 0x4000_0000 <= c && c % 0x4000_0000 > 8 && chunk <= 8
    ensures c - chunk >= 0x4000_0000
  {
  }

  // ---------- sectors in a file ----------

  /** How a track lies in its file. */
  datatype Layout = Layout(size: nat, mode2: bool)

  predicate LayoutOk(l: Layout) {
    l.size == 2048 || l.size == 2352 || (l.size == 2336 && l.mode2)
  }

  /** The bytes of a sector before its data. */
  function Pre(l: Layout): nat {
    if l.size == 2048 then 0 else if l.mode2 then 24 else 16
  }

  function PositionOf(base: nat, n: nat, size: nat): (p: nat)
    ensures p >= base
  {
    if n == 0 then base else PositionOf(base, n - 1, size) + size
  }

  lemma {:induction false} PositionAdds(base: nat, m: nat, n: nat, size: nat)
    ensures PositionOf(base, m + n, size) == PositionOf(PositionOf(base, m, size), n, size)
  {
    if n == 0 {
    } else {
      PositionAdds(base, m, n - 1, size);
    }
  }

  lemma {:induction false} PositionIs(base: nat, n: nat, size: nat)
    ensures PositionOf(base, n, size) == base + n * size
  {
    if n == 0 {
    } else {
      PositionIs(base, n - 1, size);
      assert n * size == (n - 1) * size + size;
    }
  }

  /** The bytes of a sector before its data, as the disc formats have it: sectors of 2336 bytes come
      without the sixteen of synchronisation and header. */
  function FormatPre(l: Layout): nat {
    if l.size == 2048 then 0 else if l.size == 2336 then 8 else if l.mode2 then 24 else 16
  }

  /** The 2048 bytes from offset `pre` on of the sector at a position. */
  function BytesOf(data: seq<Byte>, position: nat, pre: nat): UserPage
    requires position + pre + 2048 <= |data|
  {
    data[position + pre..position + pre + 2048]
  }

  /** What the program takes for a sector's data is its data, in every file, exactly when the sector
      does not have 2336 bytes. */
  lemma DataTaken(l: Layout)
    requires LayoutOk(l)
    ensures (forall data: seq<Byte>, at: nat :: at + l.size <= |data| ==>
               BytesOf(data, at, Pre(l)) == BytesOf(data, at, FormatPre(l)))
       <==> l.size != 2336
  {
    if l.size == 2336 {
      var data: seq<Byte> := seq(2336, i => if i == 8 then 1 else 0);
      assert BytesOf(data, 0, Pre(l))[0] == 0 && BytesOf(data, 0, FormatPre(l))[0] == 1;
    }
  }

  /** The position of a sector in a track's file, in 32-bit arithmetic. */
  function BaseOf(t: Track, lba: nat): nat {
    U32(t.skip + U32(U32(lba - t.start) * t.size))
  }

  /** A page holds what the file has from a position on; if the file ends within it, the rest is
      anything. */
  predicate Got(page: UserPage, data: seq<Byte>, at: nat) {
    forall b :: 0 <= b < 2048 && at + b < |data| ==> page[b] == data[at + b]
  }

  /** What has been sent: the sectors' data up to a failure of the disk, and zeros from there on. */
  ghost predicate Delivered(sent: seq<UserPage>, good: nat, data: seq<Byte>, base: nat, l: Layout) {
    good <= |sent| && forall j :: 0 <= j < |sent| ==>
      if j < good then Got(sent[j], data, PositionOf(base, j, l.size) + Pre(l)) else sent[j] == Zeros()
  }

  /** The file is where sector `n` begins, unless it has come to its end. */
  predicate AtSector(position: nat, n: nat, base: nat, l: Layout, length: nat) {
    position == PositionOf(base, n, l.size)
    || (position >= length && PositionOf(base, n, l.size) + Pre(l) + 2048 > length)
  }

  class Device {
    // the drive
    const drive: Drive
    var modes: seq<bool>
    var files: seq<seq<Byte>>    // the file of each track
    var position: nat            // of the file being read
    // the command
    var phase: Phase
    var count: nat
    var lba: nat
    var limit: nat
    var failed: bool
    var cylinder: nat            // the byte count shown to the host
    // the host's side
    ghost var total: nat
    ghost var good: nat
    ghost var sent: seq<UserPage>
    ghost var chunks: seq<nat>
    ghost var base: nat          // where in the file reading began

    function LayoutOf(i: nat): Layout
      requires i < |drive.tracks| == |modes|
      reads drive`tracks, `modes
    {
      Layout(drive.tracks[i].size, modes[i])
    }

    /** Every track has a file and a known layout. */
    ghost predicate Loaded()
      reads drive`tracks, `modes, `files
    {
      |drive.tracks| == |modes| == |files| && forall i :: 0 <= i < |drive.tracks| ==> LayoutOk(LayoutOf(i))
    }

    /** The track of the first sector asked for; all that the command reads is read from its file. */
    ghost function From(): (i: int)
      reads drive`tracks, `lba
    {
      Where(drive.tracks, lba)
    }

    ghost function Lay(): Layout
      requires Loaded()
      reads drive`tracks, `modes, `files, `lba
    {
      if From() == -1 then Layout(2048, false) else LayoutOf(From())
    }

    ghost function Data(): seq<Byte>
      requires Loaded()
      reads drive`tracks, `modes, `files, `lba
    {
      if From() == -1 then [] else files[From()]
    }

    /** What has been sent is right, and so is the position in the file. */
    ghost predicate SentSo(all: seq<UserPage>)
      requires Loaded()
      reads drive`tracks, `modes, `files, `lba, `good, `failed, `position, `base
    {
      Delivered(all, good, Data(), base, Lay())
      && (From() == -1 ==> failed && good == 0)
      && (!failed ==> good == |all| && AtSector(position, |all|, base, Lay(), |Data()|))
    }

    /** Between two chunks. */
    ghost predicate Reading()
      reads this, drive
    {
      Loaded() && |sent| + count == total < 0x4000_0000 && phase == WaitRead && limit > 0
      && SentSo(sent) && ByRule(chunks, |sent|, total, limit)
    }

    constructor (drive: Drive, modes: seq<bool>, files: seq<seq<Byte>>)
      ensures this.drive == drive && this.modes == modes && this.files == files && phase == Idle
    {
      this.drive, this.modes, this.files := drive, modes, files;
      position, phase, count, lba, limit, failed, cylinder := 0, Idle, 0, 0, 1, false, 0;
      total, good, sent, chunks, base := 0, 0, [], [], 0;
    }

    // ---------- reading ----------

    /** `read_cd_sectors`: the next `cnt` sectors.  Sectors of 2048 bytes are read at once, others
        one by one, and only the bytes in the middle are kept. */
    method ReadSectors(i: nat, cnt: nat) returns (buf: seq<UserPage>)
      requires Loaded() && From() == i && SentSo(sent) && cnt > 0
      modifies `position, `failed, `good
      ensures |buf| == cnt && SentSo(sent + buf)
      ensures old(failed) ==> failed && good == old(good)
    {
      hide SentSo;
      if drive.tracks[i].size == 2048 {
        buf := ReadAtOnce(i, cnt);
        return;
      }
      buf := [];
      assert sent + buf == sent;
      while |buf| < cnt
        invariant |buf| <= cnt && SentSo(sent + buf)
        invariant old(failed) ==> failed && good == old(good)
      {
        var page := ReadSector(i, sent + buf);
        assert sent + buf + [page] == sent + (buf + [page]);
        buf := buf + [page];
      }
    }

    /** One sector that is not of 2048 bytes: past what precedes its data, the data, and past the rest. */
    method ReadSector(i: nat, ghost all: seq<UserPage>) returns (page: UserPage)
      requires Loaded() && From() == i && drive.tracks[i].size != 2048 && SentSo(all)
      modifies `position, `failed, `good
      ensures SentSo(all + [page])
      ensures old(failed) ==> failed && good == old(good)
    {
      hide Delivered, Got, PositionOf, BaseOf;
      var l := LayoutOf(i);
      if !failed { failed := *; }
      if !failed {
        position := position + Pre(l);
        failed := position >= |files[i]|;
      }
      if failed {
        ZerosOn(all, [Zeros()], good, files[i], base, l);
        return Zeros();
      }
      page := Fetch(i, position);
      DataOn(all, [page], files[i], base, l);
      Onward(base, |all|, 0, l.size);
      good := good + 1;
      position := Min(position + 2048, |files[i]|) + (l.size - Pre(l) - 2048);
      failed := *;
    }

    /** What a read leaves in the buffer: the file's bytes, and what was there before after its end. */
    method Fetch(i: nat, at: nat) returns (page: UserPage)
      requires i < |files|
      ensures Got(page, files[i], at)
    {
      var stale: UserPage :| true;
      var data := files[i];
      page := seq(2048, b requires 0 <= b < 2048 => if at + b < |data| then data[at + b] else stale[b]);
    }

    method FetchMany(i: nat, at: nat, cnt: nat) returns (buf: seq<UserPage>)
      requires i < |files|
      ensures |buf| == cnt && forall j :: 0 <= j < cnt ==> Got(buf[j], files[i], at + 2048 * j)
    {
      hide Got;
      buf := [];
      while |buf| < cnt
        invariant |buf| <= cnt && forall j :: 0 <= j < |buf| ==> Got(buf[j], files[i], at + 2048 * j)
      {
        var page := Fetch(i, at + 2048 * |buf|);
        buf := buf + [page];
      }
    }

    /** Sectors of 2048 bytes, in one read. */
    method ReadAtOnce(i: nat, cnt: nat) returns (buf: seq<UserPage>)
      requires Loaded() && From() == i && drive.tracks[i].size == 2048 && SentSo(sent) && cnt > 0
      modifies `position, `failed, `good
      ensures |buf| == cnt && SentSo(sent + buf)
      ensures old(failed) ==> failed && good == old(good)
    {
      hide Delivered, Got, PositionOf, BaseOf;
      ghost var l := LayoutOf(i);
      if !failed { failed := *; }
      if !failed { failed := position >= |files[i]|; }
      if failed {
        buf := seq(cnt, _ => Zeros());
        ZerosOn(sent, buf, good, files[i], base, l);
        return;
      }
      buf := FetchMany(i, position, cnt);
      DataInPlace(sent, buf, files[i], base, l, position);
      Onward(base, |sent|, cnt, 2048);
      good := good + cnt;
      position := Min(position + 2048 * cnt, |files[i]|);
    }

    /** `cdrom_read`: one chunk. */
    method Read()
      requires Loaded() && 0 < count && |sent| + count == total < 0x4000_0000 && limit > 0
      requires ByRule(chunks, |sent|, total, limit)
      requires phase == Begin ==> sent == [] && good == 0
      requires phase == WaitRead ==> SentSo(sent)
      requires phase != Idle
      modifies `position, `failed, `good, `count, `cylinder, `phase, `sent, `chunks, `base
      ensures Reading() && count == old(count) - Chunk(old(count), limit)
      ensures chunks == old(chunks) + [Chunk(old(count), limit)] && cylinder == 2048 * Chunk(old(count), limit)
      ensures old(phase) == WaitRead && old(failed) ==> failed && good == old(good)
      ensures old(phase) == WaitRead ==> base == old(base)
    {
      hide ByRule, Chunk, Reading, SentSo, Data, Lay;
      if phase == WaitRead { NoTrackSoFar(); }
      var cnt := ChunkSize();
      var found, index0 := drive.Find(lba);
      if phase == Begin && found != -1 {
        ghost var sought := Seek(found);
      }
      var buf;
      if found == -1 {
        failed := true;
        buf := seq(cnt, _ => Zeros());
        NoTrack(buf);
      } else {
        buf := ReadSectors(found, cnt);
      }
      Send(cnt, buf);
    }

    /** Outside all tracks there are zeros. */
    lemma NoTrack(buf: seq<UserPage>)
      requires Loaded() && From() == -1 && failed && forall j :: 0 <= j < |buf| ==> buf[j] == Zeros()
      requires good == 0 && forall j :: 0 <= j < |sent| ==> sent[j] == Zeros()
      ensures SentSo(sent + buf)
    {
    }

    lemma NoTrackSoFar()
      requires Loaded() && SentSo(sent)
      ensures From() == -1 ==> good == 0 && forall j :: 0 <= j < |sent| ==> sent[j] == Zeros()
    {
    }

    /** `pkt_send`, for a chunk of sectors. */
    method Send(cnt: nat, ghost buf: seq<UserPage>)
      requires Loaded() && |sent| + count == total < 0x4000_0000 && limit > 0 && count > 0
      requires cnt == |buf| == Chunk(count, limit) && ByRule(chunks, |sent|, total, limit) && SentSo(sent + buf)
      modifies `count, `cylinder, `phase, `sent, `chunks
      ensures Reading() && count == old(count) - cnt && sent == old(sent) + buf
      ensures chunks == old(chunks) + [cnt] && cylinder == 2048 * cnt
    {
      hide ByRule, Chunk, Lay, Data, Delivered, AtSector;
      NextChunk(chunks, |sent|, total, limit);
      count := count - cnt;
      sent := sent + buf;
      chunks := chunks + [cnt];
      cylinder := cnt * 2048;
      phase := WaitRead;
    }

    /** How many sectors come next.  The product that is tested wraps in 32 bits, and for counts that
        are just above a multiple of 2^30 the test does not see them. */
    method ChunkSize() returns (cnt: nat)
      requires 0 < count < WRAP
      ensures cnt == Chunk(count, limit) <==> !Misjudged(count)
    {
      hide Chunk;
      cnt := count;
      if U32(cnt * 4) > IdeTransfer.IO_MAX { cnt := IdeTransfer.IO_MAX / 4; }
      Seen(count, cnt);
      ghost var first := cnt;
      cnt := Fewer(cnt);
      if first <= 8 { IsChunk(count, limit, cnt); }
    }

    /** Down to what the host takes at once. */
    method Fewer(first: nat) returns (cnt: nat)
      requires 0 < first <= 8 || 0x4000_0000 <= first < WRAP
      ensures 1 <= cnt <= first && (first >= 0x4000_0000 ==> cnt >= 0x4000_0000)
      ensures first <= 8 ==> (cnt == first || (cnt + 1) * 2048 > limit) && (cnt == 1 || cnt * 2048 <= limit)
    {
      hide InBytes;
      cnt := first;
      while InBytes(cnt) > limit
        invariant 1 <= cnt <= first && (first >= 0x4000_0000 ==> cnt >= 0x4000_0000)
        invariant first <= 8 ==> cnt == first || (cnt + 1) * 2048 > limit
        decreases cnt
      {
        if cnt <= 1 { break; }
        cnt := cnt - 1;
      }
    }

    /** Going to the first sector of the range, in 32-bit arithmetic.  A failure is not noticed: the
        file stays where it was, and is read from there. */
    method Seek(i: nat) returns (ghost sought: bool)
      requires Loaded() && From() == i && sent == [] && good == 0
      modifies `position, `failed, `base
      ensures SentSo(sent) && !failed && base == position && (sought ==> base == BaseOf(drive.tracks[i], lba))
    {
      var t := drive.tracks[i];
      var fails: bool, was: nat := *, *;
      position := if fails then was else U32(t.skip + U32(U32(lba - t.start) * t.size));
      failed := false;
      base, sought := position, !fails;
    }

    // ---------- the command and the data requests ----------

    /** The packet READ command: the first chunk, or nothing for a count of zero. */
    method Command(lba: nat, count: nat, limit: nat)
      requires Loaded() && limit > 0 && count < 0x4000_0000
      modifies `lba, `limit, `total, `position, `failed, `good, `count, `cylinder, `phase, `sent, `chunks, `base
      ensures this.lba == lba && this.limit == limit && total == count
      ensures count == 0 ==> phase == Idle && sent == [] && chunks == []
      ensures count > 0 ==> Reading() && chunks == [Chunk(count, limit)] && |sent| == Chunk(count, limit)
    {
      hide Chunk, SentSo;
      this.lba, this.count, this.limit := lba, count, limit;
      total, good, sent, chunks := count, 0, [], [];
      if count == 0 {
        phase := Idle;
        return;
      }
      phase := Begin;
      Read();
    }

    /** A data request of the host: the next chunk, or the end of the command. */
    method DataRequest()
      requires Reading()
      modifies `position, `failed, `good, `count, `cylinder, `phase, `sent, `chunks, `base
      ensures base == old(base)
      ensures if old(count) > 0 then Reading() && count < old(count)
              else phase == Idle && count == 0 && |sent| == total
                   && sent == old(sent) && good == old(good) && failed == old(failed) && chunks == old(chunks)
      ensures old(failed) ==> failed && good == old(good)
    {
      hide SentSo;
      if count > 0 { Read(); } else { phase := Idle; }
    }

    /** The command is over. */
    ghost predicate Served()
      reads this, drive
    {
      Loaded() && phase == Idle && |sent| == total && ByRule(chunks, total, total, limit)
      && Delivered(sent, if failed then good else total, Data(), base, Lay())
      && (From() == -1 ==> failed && good == 0)
    }

    /** However the host paces its requests, the command ends, and as many sectors as it asked for
        have been sent, in chunks by the rule: what the first sector's track has from there on, and
        zeros from a failure on. */
    method Serve()
      requires Reading()
      modifies `position, `failed, `good, `count, `cylinder, `phase, `sent, `chunks, `base
      ensures base == old(base)
      ensures Served() && (old(failed) ==> failed && good == old(good))
    {
      hide Delivered, ByRule, Lay, Data, AtSector;
      while phase == WaitRead
        invariant if phase == WaitRead then Reading() else Served()
        invariant base == old(base) && (old(failed) ==> failed && good == old(good))
        decreases if phase == WaitRead then 1 else 0, count
      {
        DataRequest();
      }
    }

    // ---------- what a command that was served has done ----------

    /** The first seek has gone where it was to go. */
    ghost predicate Sought()
      reads drive`tracks, `lba, `base
    {
      From() != -1 && base == BaseOf(drive.tracks[From()], lba)
    }

    /** A range that lies within one track of a straight table and within its file. */
    ghost predicate InTrack(i: nat)
      reads drive`tracks, `modes, `files, `lba, `total
    {
      Loaded() && i < |drive.tracks| && Straight(drive.tracks)
      && var t := drive.tracks[i];
         t.start <= lba && lba + total <= t.start + t.length && SectorAt(t, lba + total) <= |files[i]| <= WRAP
    }

    /** Such a range is read from that track, and each of its sectors is where it belongs. */
    lemma ServedRight(i: nat, j: nat)
      requires Served() && InTrack(i) && !failed && Sought() && j < total
      ensures From() == i && |sent| == total
      ensures var at := SectorAt(drive.tracks[i], lba + j);
              0 <= at && at + LayoutOf(i).size <= |files[i]| && sent[j] == BytesOf(files[i], at, Pre(LayoutOf(i)))
    {
      hide Delivered, ByRule, SectorAt, BaseOf, PositionOf, Where;
      var t := drive.tracks[i];
      OnlyTrack(drive.tracks, i, lba);
      SectorSteps(t, t.start, lba - t.start);
      SectorSteps(t, lba, j);
      SectorSteps(t, lba, j + 1);
      SectorSteps(t, lba + j + 1, total - j - 1);
      BaseIs(t, lba);
      PositionIs(base, j, t.size);
      Arrived(sent, total, files[i], base, LayoutOf(i), j);
    }

    /** Whatever the first seek has done, sector `j` has been read `j` sectors behind the position it
        left: from the right place just when that position was. */
    lemma ServedFrom(j: nat)
      requires Served() && !failed && j < total && From() != -1
      ensures var i, at := From(), base + j * drive.tracks[From()].size;
              (at == SectorAt(drive.tracks[i], lba + j) <==> base == SectorAt(drive.tracks[i], lba))
              && Got(sent[j], files[i], at + Pre(LayoutOf(i)))
    {
      hide ByRule, SectorAt, BaseOf, PositionOf, Where, Got;
      SectorSteps(drive.tracks[From()], lba, j);
      PositionIs(base, j, drive.tracks[From()].size);
    }

    /** Tracks of the same file have the same file. */
    ghost predicate FilesMatch()
      reads drive`tracks, `modes, `files
    {
      Loaded()
      && forall i, k :: 0 <= i < |files| && 0 <= k < |files| && drive.tracks[i].file == drive.tracks[k].file ==>
           files[i] == files[k]
    }

    /** A range over several tracks that is read from the right places has been sent right: each
        sector is that of its own track. */
    lemma RangeServed(j: nat)
      requires Served() && FilesMatch() && !failed && Sought() && j < total
      requires AllRight(drive.tracks, modes, lba, total)
      ensures var k := Where(drive.tracks, lba + j);
              k != -1 && SectorAt(drive.tracks[k], lba + j) >= 0
              && Got(sent[j], files[k], SectorAt(drive.tracks[k], lba + j) + Pre(LayoutOf(k)))
    {
      hide ByRule, SectorAt, BaseOf, PositionOf, Where, Got;
      assert Right(drive.tracks, modes, lba, lba + j);
      PositionIs(base, j, drive.tracks[From()].size);
    }
  }

  // ---------- what has been sent, sector by sector ----------

  lemma Arrived(sent: seq<UserPage>, good: nat, data: seq<Byte>, base: nat, l: Layout, j: nat)
    requires Delivered(sent, good, data, base, l) && j < good
    requires LayoutOk(l) && PositionOf(base, j, l.size) + l.size <= |data|
    ensures j < |sent| && sent[j] == BytesOf(data, PositionOf(base, j, l.size), Pre(l))
  {
    hide PositionOf;
  }

  /** Where a track's file has a sector; a sector of the gap before a track is before its beginning. */
  function SectorAt(t: Track, x: nat): int {
    t.skip + Bytes(x - t.start, t.size)
  }

  lemma SectorSteps(t: Track, x: nat, n: nat)
    ensures SectorAt(t, x + n) == SectorAt(t, x) + n * t.size && n * t.size >= 0
    ensures n >= 1 ==> n * t.size >= t.size
    ensures SectorAt(t, t.start) == t.skip
  {
    var d := x - t.start;
    assert (d + n) * t.size == d * t.size + n * t.size;
    if n >= 1 { Mono(1, n, t.size); }
  }

  lemma BaseIs(t: Track, x: nat)
    requires 0 <= SectorAt(t, x) < WRAP
    ensures BaseOf(t, x) == SectorAt(t, x)
  {
    var d := x - t.start;
    ModTimes(d, t.size);
    ModPlus(t.skip, U32(d) * t.size);
    ModPlus(t.skip, d * t.size);
  }

  lemma ModTimes(d: int, s: nat)
    ensures U32(U32(d) * s) == U32(d * s)
  {
    var q := d / WRAP;
    assert d == WRAP * q + U32(d);
    assert d * s == WRAP * (q * s) + U32(d) * s;
    ModMany(U32(d) * s, q * s);
  }

  lemma ModMany(a: int, q: int)
    ensures U32(a + WRAP * q) == U32(a)
  {
  }

  lemma ModPlus(a: int, b: int)
    ensures U32(a + U32(b)) == U32(a + b)
  {
  }

  /** A sector of a track, behind the gap before it, is in no other. */
  lemma OnlyTrack(t: seq<Track>, i: nat, lba: nat)
    requires i < |t| && Straight(t) && t[i].start <= lba < t[i].start + t[i].length
    ensures Where(t, lba) == i
  {
    hide Where;
    var w := Where(t, lba);
    assert Within(t, i, lba) by { assert i > 0 ==> t[i - 1].start + t[i - 1].length <= t[i].start; }
    assert forall k :: 0 < k < |t| ==> End(t[k - 1]) <= End(t[k]);
    if w < i { EndsSorted(t, w, i - 1); }
  }

  // ---------- ranges of several tracks ----------

  /** A place on a disc: which file, from which byte on, and how the sector lies there. */
  datatype Spot = Spot(file: nat, at: int, layout: Layout)

  /** Where the disc has a sector of track `k`. */
  function SpotOf(tracks: seq<Track>, modes: seq<bool>, k: nat, x: nat): Spot
    requires k < |tracks| == |modes|
  {
    Spot(tracks[k].file, SectorAt(tracks[k], x), Layout(tracks[k].size, modes[k]))
  }

  /** Where the program takes sector `x` of a range that begins in track `w`: on from its first. */
  function SpotTaken(tracks: seq<Track>, modes: seq<bool>, w: nat, lba: nat, x: nat): Spot
    requires w < |tracks| == |modes| && lba <= x
  {
    Spot(tracks[w].file, BaseOf(tracks[w], lba) + (x - lba) * tracks[w].size, Layout(tracks[w].size, modes[w]))
  }

  /** Track `k` goes on where track `w` is: in the same file, with the same sectors, and where it
      would be if it were the same track. */
  predicate GoesOn(tracks: seq<Track>, modes: seq<bool>, w: nat, k: nat, lba: nat)
    requires w < |tracks| == |modes| && k < |tracks|
  {
    tracks[k].file == tracks[w].file && tracks[k].size == tracks[w].size && modes[k] == modes[w]
    && SectorAt(tracks[k], lba) == SectorAt(tracks[w], lba)
  }

  /** Some sector of the range is in track `k`. */
  predicate Touches(tracks: seq<Track>, k: nat, lba: nat, n: nat) {
    exists x: nat :: lba <= x < lba + n && Where(tracks, x) == k
  }

  /** The program takes sector `x` from where the disc has it. */
  predicate Right(tracks: seq<Track>, modes: seq<bool>, lba: nat, x: nat)
    requires |tracks| == |modes| && lba <= x
  {
    var w, k := Where(tracks, lba), Where(tracks, x);
    w != -1 && k != -1 && SpotTaken(tracks, modes, w, lba, x) == SpotOf(tracks, modes, k, x)
  }

  predicate AllRight(tracks: seq<Track>, modes: seq<bool>, lba: nat, n: nat)
    requires |tracks| == |modes|
  {
    forall x: nat :: lba <= x < lba + n ==> Right(tracks, modes, lba, x)
  }

  predicate InTracks(tracks: seq<Track>, lba: nat, n: nat) {
    forall x: nat :: lba <= x < lba + n ==> Where(tracks, x) != -1
  }

  /** The first sector's place has 32 bits, and every track that the range reaches goes on there. */
  predicate AllGoOn(tracks: seq<Track>, modes: seq<bool>, lba: nat, n: nat)
    requires |tracks| == |modes|
  {
    var w := Where(tracks, lba);
    w != -1 && 0 <= SectorAt(tracks[w], lba) < WRAP
    && forall k :: 0 <= k < |tracks| && Touches(tracks, k, lba, n) ==> GoesOn(tracks, modes, w, k, lba)
  }

  /** A range is read from the right places, all of it, exactly when all its sectors are in tracks and
      every track that it reaches goes on where the first one is. */
  lemma RangeRight(tracks: seq<Track>, modes: seq<bool>, lba: nat, n: nat)
    requires |tracks| == |modes| && n > 0
    ensures AllRight(tracks, modes, lba, n) <==> InTracks(tracks, lba, n) && AllGoOn(tracks, modes, lba, n)
  {
    hide Where, SectorAt, BaseOf, Right, GoesOn;
    if AllRight(tracks, modes, lba, n) {
      assert Right(tracks, modes, lba, lba);
      FirstRight(tracks, modes, lba);
      forall x: nat | lba <= x < lba + n
        ensures Where(tracks, x) != -1 && GoesOn(tracks, modes, Where(tracks, lba), Where(tracks, x), lba)
      {
        assert Right(tracks, modes, lba, x);
        OneRight(tracks, modes, lba, x);
      }
    }
    if InTracks(tracks, lba, n) && AllGoOn(tracks, modes, lba, n) {
      BaseIs(tracks[Where(tracks, lba)], lba);
      forall x: nat | lba <= x < lba + n ensures Right(tracks, modes, lba, x) {
        assert Touches(tracks, Where(tracks, x), lba, n);
        OneRight(tracks, modes, lba, x);
      }
    }
  }

  lemma FirstRight(tracks: seq<Track>, modes: seq<bool>, lba: nat)
    requires |tracks| == |modes| && Right(tracks, modes, lba, lba)
    ensures var w := Where(tracks, lba); w != -1 && BaseOf(tracks[w], lba) == SectorAt(tracks[w], lba)
    ensures 0 <= BaseOf(tracks[Where(tracks, lba)], lba) < WRAP
  {
    hide Where, SectorAt;
    var t := tracks[Where(tracks, lba)];
    assert (lba - lba) * t.size == 0;
  }

  lemma OneRight(tracks: seq<Track>, modes: seq<bool>, lba: nat, x: nat)
    requires |tracks| == |modes| && lba <= x && Where(tracks, lba) != -1
    requires BaseOf(tracks[Where(tracks, lba)], lba) == SectorAt(tracks[Where(tracks, lba)], lba)
    ensures Right(tracks, modes, lba, x)
       <==> Where(tracks, x) != -1 && GoesOn(tracks, modes, Where(tracks, lba), Where(tracks, x), lba)
  {
    hide Where, SectorAt, BaseOf;
    if Where(tracks, x) != -1 { SectorSteps(tracks[Where(tracks, x)], lba, x - lba); }
  }

  /** In a table that goes forwards the sectors in tracks are those before the lead-out, and a range
      reaches the tracks that have some sector of it, or of the gap before them. */
  lemma RangeStraight(tracks: seq<Track>, lba: nat, n: nat)
    requires tracks != [] && Straight(tracks) && n > 0
    ensures InTracks(tracks, lba, n) <==> lba + n <= LeadOut(tracks)
    ensures forall k, x: nat :: 0 <= k < |tracks| && Within(tracks, k, x) ==> Where(tracks, x) == k
  {
    hide Where, LeadOut, Within, Straight;
    forall x: nat ensures x < LeadOut(tracks) <==> Where(tracks, x) != -1 { InLeadOut(tracks, x); }
    assert lba + n - 1 < LeadOut(tracks) <==> Where(tracks, lba + n - 1) != -1;
    forall k, x: nat | 0 <= k < |tracks| && Within(tracks, k, x) ensures Where(tracks, x) == k {
      WhereIs(tracks, k, x);
    }
  }

  function TwoFiles(): seq<Track> {
    [Track(1, 0, 100, 0, 2048, 1), Track(2, 100, 100, 0, 2048, 2)]
  }

  /** With a file for each of two tracks, a range of the last sector of the first and the first sector
      of the second is read from the wrong file. */
  lemma AcrossFiles()
    ensures Straight(TwoFiles()) && Where(TwoFiles(), 99) == 0 && Where(TwoFiles(), 100) == 1
    ensures InTracks(TwoFiles(), 99, 2) && !AllRight(TwoFiles(), [false, false], 99, 2)
  {
    hide Where;
    var t := TwoFiles();
    OnlyTrack(t, 0, 99);
    OnlyTrack(t, 1, 100);
    assert Touches(t, 1, 99, 2) && !GoesOn(t, [false, false], 0, 1, 99);
    RangeRight(t, [false, false], 99, 2);
  }

  lemma InLeadOut(tracks: seq<Track>, x: nat)
    requires tracks != [] && Straight(tracks)
    ensures x < LeadOut(tracks) <==> Where(tracks, x) != -1
  {
    hide Where;
    var w := Where(tracks, x);
    assert forall k :: 0 < k < |tracks| ==> End(tracks[k - 1]) <= End(tracks[k]);
    if x < LeadOut(tracks) {
      StraightTracks(tracks, x);
    } else if w != -1 {
      EndsSorted(tracks, w, |tracks| - 1);
    }
  }

  lemma WhereIs(tracks: seq<Track>, k: nat, x: nat)
    requires k < |tracks| && Straight(tracks) && Within(tracks, k, x)
    ensures Where(tracks, x) == k
  {
    hide Where;
    var w := Where(tracks, x);
    assert forall k :: 0 < k < |tracks| ==> End(tracks[k - 1]) <= End(tracks[k]);
    if w < k { EndsSorted(tracks, w, k - 1); }
  }

  /** From a failure on, zeros follow what has been sent. */
  lemma ZerosOn(sent: seq<UserPage>, buf: seq<UserPage>, good: nat, data: seq<Byte>, base: nat, l: Layout)
    requires Delivered(sent, good, data, base, l) && forall j :: 0 <= j < |buf| ==> buf[j] == Zeros()
    ensures Delivered(sent + buf, good, data, base, l)
  {
    hide PositionOf, Got;
  }

  /** And before it, the next sectors of the file. */
  lemma DataOn(sent: seq<UserPage>, buf: seq<UserPage>, data: seq<Byte>, base: nat, l: Layout)
    requires Delivered(sent, |sent|, data, base, l)
    requires forall j :: 0 <= j < |buf| ==> Got(buf[j], data, PositionOf(base, |sent| + j, l.size) + Pre(l))
    ensures Delivered(sent + buf, |sent| + |buf|, data, base, l)
  {
    hide PositionOf, Got;
    var all := sent + buf;
    forall j | 0 <= j < |all| ensures Got(all[j], data, PositionOf(base, j, l.size) + Pre(l)) {
      if j >= |sent| { assert |sent| + (j - |sent|) == j; }
    }
  }

  lemma DataInPlace(sent: seq<UserPage>, buf: seq<UserPage>, data: seq<Byte>, base: nat, l: Layout, at: nat)
    requires Delivered(sent, |sent|, data, base, l) && l.size == 2048 && at == PositionOf(base, |sent|, 2048)
    requires forall j :: 0 <= j < |buf| ==> Got(buf[j], data, at + 2048 * j)
    ensures Delivered(sent + buf, |sent| + |buf|, data, base, l)
  {
    hide PositionOf, Got, Delivered;
    forall j | 0 <= j < |buf| ensures Got(buf[j], data, PositionOf(base, |sent| + j, 2048)) {
      Onward(base, |sent|, j, 2048);
    }
    DataOn(sent, buf, data, base, l);
  }

  lemma Onward(base: nat, m: nat, n: nat, size: nat)
    ensures PositionOf(base, m + n, size) == PositionOf(base, m, size) + n * size
    ensures PositionOf(base, m + 1, size) == PositionOf(base, m, size) + size
  {
    PositionAdds(base, m, n, size);
    PositionIs(PositionOf(base, m, size), n, size);
  }

  /** `n` of `total` sectors have gone out in these chunks, each as large as the rule says. */
  predicate ByRule(chunks: seq<nat>, n: nat, total: nat, limit: nat) {
    n <= total &&
    if chunks == [] then n == 0
    else
      var c := chunks[|chunks| - 1];
      0 < c <= n && c == Chunk(total - (n - c), limit) && ByRule(chunks[..|chunks| - 1], n - c, total, limit)
  }

  lemma NextChunk(chunks: seq<nat>, n: nat, total: nat, limit: nat)
    requires ByRule(chunks, n, total, limit) && n < total
    ensures var c := Chunk(total - n, limit); ByRule(chunks + [c], n + c, total, limit)
  {
    hide Chunk;
    var c := Chunk(total - n, limit);
    assert (chunks + [c])[..|chunks|] == chunks;
  }

  /** What the test for too many sectors sees of a count. */
  lemma Seen(count: nat, cnt: nat)
    requires 0 < count < WRAP
    requires cnt == if U32(count * 4) > 32 then 8 else count
    ensures cnt == if count % 0x4000_0000 > 8 then 8 else count
    ensures !Misjudged(count) <==> cnt <= 8
    ensures cnt > 8 ==> cnt >= 0x4000_0000
  {
  }

  lemma {:induction false} EndsSorted(t: seq<Track>, i: nat, j: nat)
    requires i <= j < |t| && forall k :: 0 < k < |t| ==> End(t[k - 1]) <= End(t[k])
    ensures End(t[i]) <= End(t[j])
    decreases j
  {
    if i >= j {
    } else {
      EndsSorted(t, i, j - 1);
    }
  }

  /** The loop stops at the size of the rule. */
  lemma IsChunk(count: nat, limit: nat, c: nat)
    requires 1 <= c <= 8 && c <= count && (c == count || c == 8 || (c + 1) * 2048 > limit)
    requires c * 2048 <= limit || c == 1
    ensures c == Chunk(count, limit)
  {
  }
}
