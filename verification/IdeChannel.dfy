/** One channel of the IDE engine: registers, the selected drive, its transfer buffer, and the
    commands that read and write sectors.  What the environment decides (a failing disk, the time
    budget, the other channel, the core's pace) is nondeterministic. */
module IdeChannel {
  import opened Numbers
  import opened IdeAddress
  import opened IdeTransfer

  class Channel {
    // the drive
    var geom: Geometry
    var spb: nat                 // block size of the multiple commands
    var offset: nat              // first sector that is in the image
    const rdb: nat -> Sector     // the sectors before it
    var image: seq<Sector>
    var filePos: nat
    // the registers
    var addr: Address
    var count: nat
    var ioSize: nat
    // the transfer
    var state: Phase
    var failed: bool               // a disk access has failed
    var xferLba: nat             // of which the program keeps 32 bits
    var xferCnt: nat
    var xferMulti: bool
    var xferIrq: bool
    const buf: array<Sector>       // this channel's, for reads
    const io: array<Sector>        // for what the host writes; all channels share it
    // the host's side of the transfer, from its command on
    ghost var start: nat
    ghost var total: nat
    ghost var good: nat          // how many of its sectors came before a failure
    ghost var sent: seq<Sector>
    ghost var received: seq<Sector>
    ghost var image0: seq<Sector>
    ghost var blocks: nat        // blocks moved
    ghost var irqs: nat          // interrupts raised

    constructor (g: Geometry, offset: nat, rdb: nat -> Sector, image: seq<Sector>, io: array<Sector>)
      requires GeometryOk(g) && io.Length == IO_MAX
      ensures Fixed() && fresh(buf) && this.io == io
      ensures geom == g && spb == 16 && this.offset == offset && this.rdb == rdb && this.image == image
      ensures state == Idle
    {
      this.geom, this.spb, this.offset, this.rdb, this.image, this.io := g, 16, offset, rdb, image, io;
      filePos, addr, count, ioSize := 0, Address(true, 0, 0, 0), 0, 0;
      state, failed, xferLba, xferCnt, xferMulti, xferIrq := Idle, false, 0, 0, false, false;
      buf := new Sector[IO_MAX](_ => ZERO);
      start, total, good, sent, received, image0, blocks, irqs := 0, 0, 0, [], [], [], 0, 0;
    }

    ghost predicate Fixed()
      reads `geom, `addr, `count, `spb
    {
      buf.Length == IO_MAX == io.Length && GeometryOk(geom) && AddressOk(addr) && count < 256 && spb <= IO_MAX
    }

    /** The command that sets the block size, which may be 0. */
    method SetMultiple() returns (err: bool)
      requires Fixed()
      modifies `spb
      ensures Fixed() && (err <==> count > IO_MAX) && spb == if err then old(spb) else count
    {
      if count > IO_MAX { return true; }
      spb := count;
      return false;
    }

    /** The command that sets the geometry, and with it the number of sectors before the image, if
        there are any. */
    method SetGeometry()
      requires Fixed() && addr.head < 16
      modifies `geom, `offset
      ensures Fixed() && geom == Geometry(addr.head + 1, if count == 0 then 256 else count)
      ensures offset == if old(offset) == 0 then 0 else geom.heads * geom.spt
    {
      geom := Geometry(addr.head + 1, if count == 0 then 256 else count);
      if offset != 0 { offset := geom.heads * geom.spt; }
    }

    /** Sectors per block of the transfer: none if that is what the host has asked for. */
    ghost function Block(): nat
      reads `xferMulti, `spb
    {
      if xferMulti then spb else 1
    }

    /** Where the image starts, for this transfer. */
    ghost function ImageBase(): nat
      reads `xferMulti, `spb, `start, `offset
    {
      Base(start, Block(), offset)
    }

    /** How many sectors of the transfer are done. */
    ghost function Done(): int
      reads `xferLba, `start
    {
      xferLba - start
    }

    /** The transfer goes past the last sector number of 32 bits, as it does from cylinder, head and
        sector 0. */
    ghost predicate Passing()
      reads `start, `total
    {
      start + total >= WRAP
    }

    /** The bookkeeping that reads and writes share, at a block boundary. */
    ghost predicate Aligned()
      reads `geom, `addr, `count, `xferMulti, `spb, `start, `total, `offset, `xferLba
    {
      && Fixed()
      && Block() <= IO_MAX
      && 1 <= total <= 256
      && start < WRAP
      && 0 <= Done() <= (if Block() > 0 then total else 0)
      && count == (total - Done()) % 256
      && (Done() > 0 ==> addr == PutLba(geom, addr, xferLba))
      && (Block() > 0 && xferLba < offset && Done() < total ==> ImageBase() == BoundaryFrom(xferLba, Block(), offset))
      && (xferLba >= offset && Done() < total ==> ImageBase() <= xferLba)
    }

    /** The size of the next block, while sectors are outstanding. */
    ghost predicate NextBlock()
      reads `xferMulti, `spb, `start, `total, `xferLba, `xferCnt
    {
      Done() < total && xferCnt == Min(Block(), total - Done())
    }

    /** A read waiting to send the block it has prefetched. */
    ghost predicate Reading()
      reads this, buf
    {
      && Aligned() && NextBlock()
      && |sent| == Done()
      && (if failed then good <= |sent| else good == |sent| + xferCnt)
      && Delivered(sent + buf[..xferCnt], start, ImageBase(), good, rdb, image)
      && (!failed && xferLba < offset ==> filePos == 0)
      && (!failed && xferLba >= offset ==> filePos == Min(xferLba + xferCnt - ImageBase(), |image|))
      && (Passing() ==> failed && good == 0 && offset + |image| <= start)
    }

    /** What has been sent, and the position in the file, when the next sector is `next`. */
    ghost predicate SentTo(next: int)
      reads `sent, `good, `failed, `image, `start, `offset, `xferMulti, `spb, `filePos, `total
    {
      && |sent| == next - start
      && (if failed then good <= |sent| else good == |sent|)
      && Delivered(sent, start, ImageBase(), good, rdb, image)
      && (!failed && next < offset ==> filePos == 0)
      && (!failed && next >= offset && next - start < total ==> filePos + ImageBase() == next || filePos == |image|)
      && (Passing() ==> (failed || next == start) && good == 0 && offset + |image| <= start)
    }

    /** Between two blocks of a read: all that was prefetched has been sent. */
    ghost predicate Between()
      reads this
    {
      Aligned() && SentTo(xferLba)
    }

    /** A finished read: of everything, or of nothing in blocks of no sectors. */
    ghost predicate ReadDone()
      reads this
    {
      && Aligned() && count == 0 && |sent| == Done() == (if Block() > 0 then total else 0)
      && (if failed then good <= |sent| else good == |sent|)
      && Delivered(sent, start, ImageBase(), good, rdb, image)
      && (Passing() ==> good == 0)
    }

    method GetCnt() returns (cnt: nat)
      ensures cnt == BlockCount(count, spb)
    {
      cnt := count;
      if cnt == 0 || cnt > spb { cnt := spb; }
    }

    method SetRegs(irq: bool)
      modifies this`irqs
      ensures irqs == old(irqs) + (if irq then 1 else 0)
    {
      irqs := irqs + (if irq then 1 else 0);
    }

    /** `readhdd`: a block from before the image, or from the file position on. */
    method ReadHdd(lba: nat, cnt: nat, ghost base: nat) returns (ret: int)
      requires Fixed() && cnt <= IO_MAX
      requires if lba < offset then lba + cnt <= base else base <= lba && (filePos + base == lba || filePos == |image|)
      modifies this`filePos, buf
      ensures ret > 0 ==> RightBlock(buf[..cnt], lba, base, rdb, image)
      ensures lba < offset ==> ret > 0 && filePos == old(filePos)
      ensures lba >= offset && ret > 0 ==> filePos == Min(lba + cnt - base, |image|)
      ensures lba >= offset && old(filePos) >= |image| ==> ret <= 0
    {
      if lba < offset {
        var i := 0;
        while i < cnt
          modifies buf
          invariant 0 <= i <= cnt && forall k :: 0 <= k < i ==> buf[k] == rdb(lba + k)
        {
          buf[i] := rdb(lba + i);
          i := i + 1;
        }
        ret := 1;
      } else {
        var fails := *;
        if fails { return -1; }
        var i := 0;
        while i < cnt && filePos + i < |image|
          modifies buf
          invariant 0 <= i <= cnt && (i == 0 || filePos + i <= |image|)
          invariant forall k :: 0 <= k < i ==> buf[k] == image[filePos + k]
        {
          buf[i] := image[filePos + i];
          i := i + 1;
        }
        filePos := filePos + i;
        ret := i * 512;
      }
    }

    /** Read the block at `xferLba` into the buffer, zeros once the disk has failed. */
    method Prefetch()
      requires Between() && NextBlock()
      modifies this`filePos, this`failed, this`good, buf
      ensures Reading()
    {
      hide Delivered, RightBlock, Aligned, SentTo, Reading, NextBlock;
      ghost var base := ImageBase();
      AtPrefetch();
      if !failed {
        InRange();
        var ret := ReadHdd(xferLba % WRAP, xferCnt, base);
        failed := ret <= 0;
      }
      if failed {
        ClearBlock();
        DeliveredZeros(sent, buf[..xferCnt], start, base, good, rdb, image);
      } else {
        good := |sent| + xferCnt;
        DeliveredRight(sent, buf[..xferCnt], start, base, rdb, image);
      }
      NowReading();
    }

    /** What is known where the next block is to be read. */
    lemma AtPrefetch()
      requires Between() && NextBlock()
      ensures Fixed() && Aligned() && xferCnt <= IO_MAX == buf.Length && xferLba == start + |sent|
      ensures if failed then good <= |sent| else good == |sent|
      ensures Delivered(sent, start, ImageBase(), good, rdb, image)
      ensures !failed ==>
                if xferLba < offset then xferLba + xferCnt <= ImageBase() && filePos == 0
                else ImageBase() <= xferLba && (filePos + ImageBase() == xferLba || filePos == |image|)
      ensures Passing() ==> good == 0 && offset + |image| <= start
    {
      hide Delivered, Base, PutLba;
      BaseAbove(xferLba, Block(), offset);
    }

    lemma NowReading()
      requires Aligned() && NextBlock() && |sent| == Done() && buf.Length == IO_MAX >= xferCnt
      requires if failed then good <= |sent| else good == |sent| + xferCnt
      requires Delivered(sent + buf[..xferCnt], start, ImageBase(), good, rdb, image)
      requires !failed && xferLba < offset ==> filePos == 0
      requires !failed && xferLba >= offset ==> filePos == Min(xferLba + xferCnt - ImageBase(), |image|)
      requires Passing() ==> failed && good == 0 && offset + |image| <= start
      ensures Reading()
    {
      hide Delivered, Aligned;
    }

    lemma InRange()
      requires Between() && NextBlock() && !failed
      ensures xferLba % WRAP == xferLba
      ensures Passing() ==> xferLba >= offset && filePos >= |image|
    {
      hide Delivered, BoundaryFrom, PutLba;
    }

    method ClearBlock()
      requires buf.Length == IO_MAX && xferCnt <= IO_MAX
      modifies buf
      ensures forall i :: 0 <= i < xferCnt ==> buf[i] == ZERO
    {
      var i := 0;
      while i < xferCnt
        invariant 0 <= i <= xferCnt && forall k :: 0 <= k < i ==> buf[k] == ZERO
      {
        buf[i] := ZERO;
        i := i + 1;
      }
    }

    /** `read_send_block`: send the block in the buffer, then prefetch the next one. */
    method ReadSendBlock() returns (more: bool)
      requires Reading()
      modifies this`xferLba, this`count, this`addr, this`ioSize, this`state, this`xferCnt
      modifies this`filePos, this`failed, this`good, this`sent, this`blocks, this`irqs, buf
      ensures xferLba == old(xferLba + xferCnt) && sent == old(sent) + old(buf[..xferCnt])
      ensures addr == PutLba(geom, old(addr), xferLba) && ioSize == old(xferCnt)
      ensures irqs - blocks == old(irqs - blocks) && blocks == old(blocks) + 1
      ensures Block() == 0 ==> count == old(count) && (more <==> count != 0)
      ensures more ==> state == WaitRd && Reading()
      ensures !more ==> state == Idle && ReadDone()
    {
      hide Reading, ReadDone, Between, PutLba, Aligned, NextBlock, Delivered, Fixed;
      SendBlock();
      if count == 0 {
        Finish();
        return false;
      }
      NextCount();
      Prefetch();
      Suspend();
      return true;
    }

    /** The count of the next block, from the registers. */
    method NextCount()
      requires Between() && count != 0
      modifies this`xferCnt
      ensures Between() && NextBlock()
    {
      NextBlockSize();
      if xferMulti { xferCnt := GetCnt(); } else { xferCnt := 1; }
    }

    method Suspend()
      requires Reading()
      modifies this`state
      ensures Reading() && state == WaitRd
    {
      state := WaitRd;
    }

    method Finish()
      requires Between() && count == 0 && (Block() > 0 ==> Done() > 0)
      modifies this`state
      ensures ReadDone() && state == Idle
    {
      state := Idle;
    }

    method SendBlock()
      requires Reading()
      modifies this`xferLba, this`count, this`addr, this`ioSize, this`sent, this`blocks, this`irqs
      ensures Between() && (Block() > 0 ==> Done() > 0) && (Block() == 0 ==> count == old(count))
      ensures xferLba == old(xferLba) + xferCnt && sent == old(sent) + buf[..xferCnt]
      ensures addr == PutLba(geom, old(addr), xferLba) && ioSize == xferCnt
      ensures irqs - blocks == old(irqs - blocks) && blocks == old(blocks) + 1
    {
      hide Delivered, PutLba, Aligned, Reading, NextBlock, SentTo, Fixed;
      AtSend();
      sent := sent + buf[..xferCnt];
      NowSent();
      MoveOn();
      ioSize := xferCnt;
      SetRegs(true);
      blocks := blocks + 1;
    }

    lemma NowSent()
      requires |sent| == Done() + xferCnt && (if failed then good <= |sent| else good == |sent|)
      requires Delivered(sent, start, ImageBase(), good, rdb, image)
      requires !failed && xferLba + xferCnt < offset ==> filePos == 0
      requires !failed && xferLba + xferCnt >= offset && Done() + xferCnt < total ==>
                 filePos + ImageBase() == xferLba + xferCnt || filePos == |image|
      requires Passing() ==> failed && good == 0 && offset + |image| <= start
      ensures SentTo(xferLba + xferCnt)
    {
      hide Delivered, Base;
    }

    /** What a waiting read knows of its next block. */
    lemma AtSend()
      requires Reading()
      ensures Aligned() && NextBlock() && xferCnt <= IO_MAX == buf.Length && xferLba >= start
      ensures |sent| == Done() && (if failed then good <= |sent| else good == |sent| + xferCnt)
      ensures Delivered(sent + buf[..xferCnt], start, ImageBase(), good, rdb, image)
      ensures !failed && xferLba + xferCnt < offset ==> filePos == 0
      ensures !failed && xferLba + xferCnt >= offset && Done() + xferCnt < total ==>
                filePos + ImageBase() == xferLba + xferCnt || filePos == |image|
      ensures Passing() ==> failed && good == 0 && offset + |image| <= start
    {
      hide Delivered, PutLba;
      if !failed { FileAfterBlock(); }
    }

    /** Account for a block in the registers. */
    method MoveOn()
      requires Aligned() && NextBlock()
      modifies this`xferLba, this`count, this`addr
      ensures Aligned() && (Block() > 0 ==> Done() > 0)
      ensures Block() == 0 ==> count == old(count)
      ensures xferLba == old(xferLba) + xferCnt && addr == PutLba(geom, old(addr), xferLba)
    {
      hide PutLba, Base, BoundaryFrom;
      AfterBlock();
      PutAgain(geom, addr, xferLba + xferCnt);
      xferLba := xferLba + xferCnt;
      count := (count - xferCnt) % 256;
      addr := PutLba(geom, addr, xferLba);
    }

    lemma FileAfterBlock()
      requires Reading() && !failed
      ensures xferLba + xferCnt < offset ==> filePos == 0
      ensures xferLba + xferCnt >= offset && Done() + xferCnt < total ==>
        filePos + ImageBase() == xferLba + xferCnt || filePos == |image|
    {
      BaseAbove(xferLba, Block(), offset);
    }

    lemma NextBlockSize()
      requires Between() && count != 0
      ensures Done() < total
      ensures xferMulti ==> BlockCount(count, spb) == Min(Block(), total - Done())
      ensures !xferMulti ==> Min(Block(), total - Done()) == 1
    {
      if xferMulti { BlockCountIs(total - Done(), spb); }
    }

    /** `read_continue`: blocks go out until the transfer ends, the budget is used up, or the core
        (or the other channel) does not ask for the next block at once. */
    method ReadContinue()
      requires Reading() && irqs == blocks
      modifies this`xferLba, this`count, this`addr, this`ioSize, this`state, this`xferCnt
      modifies this`filePos, this`failed, this`good, this`sent, this`blocks, this`irqs, buf
      ensures state == WaitRd || state == Idle
      ensures if state == WaitRd then Reading() else ReadDone()
      ensures irqs == blocks > old(blocks)
      ensures Block() > 0 ==> xferLba > old(xferLba)
      ensures Block() == 0 ==> Stuck(old(xferLba), old(count), old(sent), state == Idle)
    {
      hide Reading, ReadDone, PutLba;
      ghost var from, asked0, before := xferLba, count, sent;
      SomethingToSend();
      var more := ReadSendBlock();
      SentNothing(from, asked0, before, more);
      var budget: nat, asked := *, *;
      while more && budget > 0 && asked
        invariant state == if more then WaitRd else Idle
        invariant if more then Reading() else ReadDone()
        invariant irqs == blocks > old(blocks)
        invariant Block() > 0 ==> xferLba > from
        invariant Block() == 0 ==> Stuck(from, asked0, before, !more)
        decreases budget
      {
        SomethingToSend();
        more := ReadSendBlock();
        SentNothing(from, asked0, before, more);
        budget, asked := budget - 1, *;
      }
    }

    /** What becomes of a read in blocks of no sectors: nothing is sent, the registers ask for as
        much as before, and it is over if and only if they ask for 256 sectors. */
    ghost predicate Stuck(lba: nat, asked: nat, before: seq<Sector>, over: bool)
      reads `xferLba, `count, `sent
    {
      xferLba == lba && count == asked && sent == before && (over <==> count == 0)
    }

    lemma SentNothing(lba: nat, asked: nat, before: seq<Sector>, more: bool)
      requires Block() == 0 ==> xferLba == lba && count == asked && sent == before + [] && (more <==> count != 0)
      ensures Block() == 0 ==> Stuck(lba, asked, before, !more)
    {
    }

    /** The size of the block that is to be sent. */
    lemma SomethingToSend()
      requires Reading()
      ensures (xferCnt > 0 <==> Block() > 0) && xferLba + xferCnt <= start + total
    {
    }

    /** `process_read`: a read command, with the count and the address in the registers. */
    method ProcessRead(multi: bool)
      requires Fixed()
      requires GetLba(geom, addr) + Requested(count) < WRAP || offset + |image| <= GetLba(geom, addr)
      modifies this, buf
      ensures geom == old(geom) && spb == old(spb) && offset == old(offset) && image == old(image)
      ensures start == GetLba(geom, old(addr)) && total == Requested(old(count)) && xferMulti == multi
      ensures state == WaitRd || state == Idle
      ensures if state == WaitRd then Reading() else ReadDone()
      ensures irqs == blocks > 0
      ensures xferLba > start <==> Block() > 0
      ensures Block() == 0 ==> sent == [] && count == old(count) && (state == Idle <==> count == 0)
    {
      hide Between, Reading, ReadDone, PutLba;
      BeginRead(multi);
      Prefetch();
      ReadContinue();
    }

    method BeginRead(multi: bool)
      requires Fixed()
      requires GetLba(geom, addr) + Requested(count) < WRAP || offset + |image| <= GetLba(geom, addr)
      modifies `start, `total, `good, `sent, `blocks, `irqs, `xferLba, `xferCnt, `xferMulti, `failed, `filePos
      ensures Between() && NextBlock() && xferLba == start && irqs == blocks == 0 && sent == []
      ensures start == GetLba(geom, addr) && total == Requested(count) && xferMulti == multi
    {
      hide Delivered, PutLba, GetLba, BoundaryFrom;
      Begin(multi);
      sent := [];
      failed := Seek(xferLba);
      NothingDelivered(start, ImageBase(), good, rdb, image);
    }

    /** Start a transfer at the sector and for the count in the registers. */
    method Begin(multi: bool)
      requires Fixed()
      modifies `start, `total, `good, `blocks, `irqs, `xferLba, `xferCnt, `xferMulti
      ensures Aligned() && NextBlock() && Done() == 0 && good == 0 && irqs == blocks == 0
      ensures start == GetLba(geom, addr) && total == Requested(count) && xferMulti == multi
    {
      hide PutLba, GetLba, BoundaryFrom, Aligned, NextBlock;
      var lba := GetLba(geom, addr);
      var cnt: nat := 1;
      if multi { cnt := GetCnt(); }
      start, total, good, blocks, irqs := lba, Requested(count), 0, 0, 0;
      xferLba, xferCnt, xferMulti := lba, cnt, multi;
      Begun();
    }

    lemma Begun()
      requires Fixed() && xferLba == start && total == Requested(count) && start < WRAP
      requires xferCnt == if xferMulti then BlockCount(count, spb) else 1
      ensures Aligned() && NextBlock() && Done() == 0
    {
      hide PutLba, BoundaryFrom, BlockCount;
      BlockCountIs(total, spb);
    }

    /** Position the file at a sector of the drive, or at its start for the sectors before it. */
    method Seek(lba: nat) returns (fails: bool)
      modifies this`filePos
      ensures filePos == if lba <= offset then 0 else lba - offset
    {
      filePos := if lba <= offset then 0 else lba - offset;
      fails := *;
    }

    // ---------- writing ----------

    /** The image, and the position in it, when the data for the sectors before `next` are stored. */
    ghost predicate StoredTo(next: int)
      reads `received, `good, `failed, `image, `image0, `start, `offset, `xferMulti, `spb, `filePos, `total
    {
      && |received| == next - start
      && (if failed then good <= |received| else good == |received|)
      && (!Passing() || Block() == 0 ==>
            image == Stored(image0, ImageBase(), start, received[..good])
            && (!failed && next < offset ==> filePos == 0)
            && (!failed && next >= offset && next - start < total ==> filePos + ImageBase() == next))
    }

    /** At a block boundary of a write. */
    ghost predicate StoredSoFar()
      reads `received, `good, `failed, `image, `image0, `start, `offset, `xferMulti, `spb, `xferLba, `filePos, `total
    {
      StoredTo(xferLba)
    }

    /** A write waiting for the host's next block, whose size the core has been told. */
    ghost predicate Writing()
      reads this
    {
      Aligned() && NextBlock() && StoredSoFar() && xferIrq && ioSize == xferCnt
    }

    /** A finished write: of everything, or of nothing in blocks of no sectors. */
    ghost predicate WriteDone()
      reads this
    {
      Aligned() && count == 0 && Done() == (if Block() > 0 then total else 0) && StoredSoFar()
    }

    /** `write_request_block`: ask for a block; the interrupt says that the last one is done. */
    method WriteRequestBlock()
      requires Aligned() && Done() < total && StoredSoFar()
      modifies `xferCnt, `xferIrq, `ioSize, `irqs, `state
      ensures Writing() && state == WaitWr
      ensures irqs == old(irqs) + if old(xferIrq) then 1 else 0
    {
      hide Stored, Base, PutLba, BoundaryFrom, BlockCount, Aligned, StoredSoFar;
      CountIs();
      if xferMulti { xferCnt := GetCnt(); } else { xferCnt := 1; }
      SetRegs(xferIrq);
      xferIrq := true;
      ioSize := xferCnt;
      state := WaitWr;
    }

    lemma CountIs()
      requires Aligned() && Done() < total
      ensures xferMulti ==> BlockCount(count, spb) == Min(Block(), total - Done())
      ensures !xferMulti ==> Min(Block(), total - Done()) == 1
    {
      if xferMulti { BlockCountIs(total - Done(), spb); }
    }

    /** Store a block in the file; the sectors before the image are dropped.  A write of nothing
        reports that it wrote nothing, which reads as a failure. */
    method WriteFile(data: seq<Sector>)
      requires Writing() && |data| == xferCnt && !failed
      modifies `image, `filePos, `failed
      ensures failed || xferLba % WRAP < offset ==> image == old(image) && filePos == old(filePos)
      ensures xferLba % WRAP < offset ==> !failed
      ensures !failed && xferLba % WRAP >= offset ==>
        image == WriteSectors(old(image), old(filePos), data) && filePos == old(filePos) + |data|
    {
      if xferLba % WRAP >= offset {
        var fails := *;
        failed := fails || |data| == 0;
        if !failed {
          image := WriteSectors(image, filePos, data);
          filePos := filePos + |data|;
        }
      }
    }

    /** `write_recv_block`: take a block from the host, store it, ask for the next one. */
    method WriteRecvBlock() returns (more: bool)
      requires Writing() && irqs == blocks
      modifies `xferLba, `count, `addr, `ioSize, `state, `xferCnt, `xferIrq
      modifies `image, `filePos, `failed, `good, `received, `blocks, `irqs, io
      ensures xferLba == old(xferLba + xferCnt) && received == old(received) + io[..old(xferCnt)]
      ensures irqs == blocks == old(blocks) + 1
      ensures addr == PutLba(geom, old(addr), xferLba)
      ensures Block() == 0 ==> count == old(count) && (more <==> count != 0)
      ensures more ==> state == WaitWr && Writing()
      ensures !more ==> state == Idle && WriteDone()
    {
      hide Stored, PutLba, Aligned, StoredTo, StoredSoFar, NextBlock, Writing, WriteDone, Fixed;
      BlockSize();
      HostData(xferCnt);
      StoreBlock(io[..xferCnt]);
      blocks := blocks + 1;
      EndOfCount();
      if count == 0 {
        FinishWrite();
        return false;
      }
      WriteRequestBlock();
      return true;
    }

    method FinishWrite()
      requires Aligned() && count == 0 && (Block() > 0 ==> Done() > 0) && StoredSoFar()
      modifies `state, `irqs
      ensures WriteDone() && state == Idle && irqs == old(irqs) + 1
    {
      hide StoredSoFar;
      state := Idle;
      SetRegs(true);
    }

    lemma EndOfCount()
      requires Aligned() && (Block() > 0 ==> Done() > 0)
      ensures count != 0 ==> Done() < total
    {
    }

    lemma BlockSize()
      requires Writing()
      ensures xferCnt <= IO_MAX == io.Length && (xferCnt > 0 <==> Block() > 0) && xferLba + xferCnt <= start + total
    {
    }

    method StoreBlock(data: seq<Sector>)
      requires Writing() && |data| == xferCnt
      modifies `image, `filePos, `failed, `good, `received, `xferLba, `count, `addr
      ensures Aligned() && (Block() > 0 ==> Done() > 0) && StoredSoFar() && xferIrq
      ensures xferLba == old(xferLba + xferCnt) && received == old(received) + data
      ensures Block() == 0 ==> count == old(count)
      ensures addr == PutLba(geom, old(addr), xferLba)
    {
      hide PutLba, Aligned, StoredTo, NextBlock;
      PutBlock(data);
      MoveOn();
    }

    /** Put a block into the file. */
    method PutBlock(data: seq<Sector>)
      requires Writing() && |data| == xferCnt
      modifies `image, `filePos, `failed, `good, `received
      ensures Aligned() && NextBlock() && xferIrq && StoredTo(xferLba + xferCnt)
      ensures received == old(received) + data
    {
      hide Stored, Base, PutLba, BoundaryFrom, Aligned, WriteSectors;
      BlockPlace();
      ghost var base, r := ImageBase(), received;
      StoredAppend(image0, base, start, r, data);
      TakeAll(r, data, good);
      if !failed { WriteFile(data); }
      if !failed { good := good + |data|; }
      received := received + data;
    }

    /** Where the next block lies with respect to the image. */
    lemma BlockPlace()
      requires Aligned() && NextBlock()
      ensures xferLba >= start
      ensures xferLba < offset ==> xferLba + xferCnt <= ImageBase()
      ensures xferLba >= offset ==> ImageBase() <= xferLba
      ensures xferLba < offset <= xferLba + xferCnt && Done() + xferCnt < total ==> ImageBase() == xferLba + xferCnt
    {
      BaseAbove(xferLba, Block(), offset);
    }

    /** Data the host chooses, in the buffer that all channels share. */
    method HostData(n: nat)
      requires n <= io.Length
      modifies io
    {
      var i := 0;
      while i < n
        invariant i <= n
      {
        var x: Sector := *;
        io[i] := x;
        i := i + 1;
      }
    }

    /** `write_continue`: blocks come in while the budget lasts and the core offers them at once. */
    method WriteContinue()
      requires state == WaitWr && Writing() && irqs == blocks
      modifies `xferLba, `count, `addr, `ioSize, `state, `xferCnt, `xferIrq
      modifies `image, `filePos, `failed, `good, `received, `blocks, `irqs, io
      ensures state == WaitWr || state == Idle
      ensures if state == WaitWr then Writing() else WriteDone()
      ensures xferLba >= old(xferLba) && irqs == blocks >= old(blocks)
      ensures Block() == 0 ==> StuckWrite(old(xferLba), old(count), old(received))
      ensures Block() == 0 && state == Idle ==> count == 0
    {
      hide Writing, WriteDone, PutLba;
      ghost var from, asked0, before := xferLba, count, received;
      var more := true;
      var budget: nat, asked := *, *;
      while more && budget > 0 && asked
        invariant state == if more then WaitWr else Idle
        invariant if more then Writing() else WriteDone()
        invariant xferLba >= from && irqs == blocks >= old(blocks)
        invariant Block() == 0 ==> StuckWrite(from, asked0, before) && (!more ==> count == 0)
        decreases budget
      {
        BlockSize();
        more := WriteRecvBlock();
        budget, asked := budget - 1, *;
      }
    }

    /** What becomes of a write in blocks of no sectors: nothing. */
    ghost predicate StuckWrite(lba: nat, asked: nat, before: seq<Sector>)
      reads `xferLba, `count, `received
    {
      xferLba == lba && count == asked && received == before
    }

    /** `process_write`: a write command, with the count and the address in the registers. */
    method ProcessWrite(multi: bool)
      requires Fixed()
      modifies this, io
      ensures geom == old(geom) && spb == old(spb) && offset == old(offset) && image0 == old(image)
      ensures start == GetLba(geom, old(addr)) && total == Requested(old(count)) && xferMulti == multi
      ensures state == WaitWr || state == Idle
      ensures if state == WaitWr then Writing() else WriteDone()
      ensures irqs == blocks
      ensures Block() == 0 ==> received == [] && count == old(count) && image == old(image)
      ensures Block() == 0 && state == Idle ==> count == 0
    {
      hide Writing, WriteDone, PutLba, Aligned, StoredSoFar;
      BeginWrite(multi);
      WriteRequestBlock();
      WriteContinue();
      NothingMoved();
    }

    method BeginWrite(multi: bool)
      requires Fixed()
      modifies `start, `total, `good, `received, `blocks, `irqs, `xferLba, `xferCnt, `xferMulti, `failed, `filePos
      modifies `image0, `xferIrq
      ensures Aligned() && Done() < total && StoredSoFar() && !xferIrq && irqs == blocks == 0
      ensures start == GetLba(geom, addr) && total == Requested(count) && xferMulti == multi
      ensures image0 == image
    {
      hide Stored, PutLba, GetLba, BoundaryFrom, Aligned, StoredSoFar;
      Begin(multi);
      received, image0 := [], image;
      failed := Seek(xferLba);
      xferIrq := false;
      StoredAtStart();
    }

    lemma StoredAtStart()
      requires Aligned() && Done() == 0 && received == [] && good == 0 && image0 == image
      requires filePos == if xferLba <= offset then 0 else xferLba - offset
      ensures StoredSoFar()
    {
      hide Stored, PutLba, BoundaryFrom;
      NothingStored(image, ImageBase(), start);
    }

    // ---------- what a finished transfer has done ----------

    /** No block of the transfer straddles the start of the image. */
    ghost predicate BlocksFit()
      requires 1 <= Block()
      reads `start, `total, `offset, `xferMulti, `spb
    {
      offset <= start || start + total <= offset || (offset - start) % Block() == 0
    }

    /** A read whose disk accesses all succeeded delivers the sectors start..start+total-1 of the
        drive, once each and in order, and leaves the address of the last one in the registers. */
    lemma ReadResult()
      requires ReadDone() && 0 < Block() && !failed && BlocksFit() && !Passing()
      ensures |sent| == total
      ensures forall k :: 0 <= k < total ==> Holds(PlaceOf(offset, start + k), rdb, image, sent[k])
      ensures GetLba(geom, addr) == start + total - 1 <==> Fits(geom, addr.lba, start + total - 1)
    {
      hide Holds, PlaceOf, Base, BoundaryFrom, PutLba, GetLba, Fits;
      PlacesExact(start, Block(), offset, total);
      forall k | 0 <= k < total ensures Holds(PlaceOf(offset, start + k), rdb, image, sent[k]) {
        assert PlaceOf(ImageBase(), start + k) == PlaceOf(offset, start + k);
      }
      LastAddress();
    }

    /** A read that goes past the limit has failed, and has delivered zeros. */
    lemma PassingResult()
      requires ReadDone() && Passing()
      ensures |sent| == (if Block() > 0 then total else 0) && forall k :: 0 <= k < |sent| ==> sent[k] == ZERO
    {
      hide Base, PutLba;
    }

    lemma LastAddress()
      requires Aligned() && Done() == total && !Passing()
      ensures GetLba(geom, addr) == start + total - 1 <==> Fits(geom, addr.lba, start + total - 1)
    {
      hide PutLba, GetLba, Fits, Base, BoundaryFrom;
      PutAgain(geom, addr, xferLba);
      PutGet(geom, addr, xferLba);
    }

    /** A write whose disk accesses all succeeded stores the sectors received, in order, at
        start..start+total-1, drops those before the image, and touches nothing else. */
    lemma WriteResult(i: nat)
      requires WriteDone() && 0 < Block() && !failed && BlocksFit() && !Passing()
      ensures |received| == total && |image| >= |image0|
      ensures start <= i + offset < start + total ==> i < |image| && image[i] == received[i + offset - start]
      ensures !(start <= i + offset < start + total) && i < |image0| ==> image[i] == image0[i]
      ensures GetLba(geom, addr) == start + total - 1 <==> Fits(geom, addr.lba, start + total - 1)
    {
      hide Base, BoundaryFrom, PutLba, GetLba, Fits, Stored;
      LastAddress();
      WriteBase();
      assert received[..good] == received;
      StoredAt(image0, ImageBase(), start, received, i);
      if ImageBase() != offset { StoredNothing(image0, ImageBase(), start, received); }
    }

    lemma WriteBase()
      requires Aligned() && 0 < Block() && BlocksFit()
      ensures ImageBase() == offset || start + total <= offset
      ensures ImageBase() >= offset
    {
      if start < offset { BoundaryExact(start, Block(), offset); }
    }

    // ---------- resuming ----------

    /** Suspended at a block boundary. */
    ghost predicate Active()
      reads this, buf
    {
      (state == WaitRd && Reading()) || (state == WaitWr && Writing())
    }

    ghost predicate Finished()
      reads this
    {
      state == Idle && (ReadDone() || WriteDone())
    }

    /** `ide_io` with a data request, while a read or a write is under way. */
    method DataRequest()
      requires Active() && irqs == blocks
      modifies `xferLba, `count, `addr, `ioSize, `state, `xferCnt, `xferIrq
      modifies `image, `filePos, `failed, `good, `received, `sent, `blocks, `irqs, buf, io
      ensures Active() || Finished()
      ensures (state == old(state) && Left() > 0) || state == Idle
      ensures old(state) == WaitRd ==> image == old(image) && (state == Idle ==> ReadDone())
      ensures old(state) == WaitWr ==> (state == Idle ==> WriteDone())
      ensures irqs == blocks > old(blocks)
      ensures xferLba > old(xferLba) <==> Block() > 0
      ensures Block() == 0 ==> xferLba == old(xferLba) && count == old(count)
      ensures Block() == 0 ==> sent == old(sent) && received == old(received)
      ensures Block() == 0 ==> (state == Idle <==> count == 0)
      ensures Block() == 0 && old(state) == WaitWr ==> image == image0
    {
      hide Reading, ReadDone, Writing, WriteDone, PutLba;
      if state == WaitRd {
        ReadContinue();
      } else {
        BlockSize();
        var more := WriteRecvBlock();
        if more { WriteContinue(); }
        NothingMoved();
      }
      if state != Idle { LeftOver(); }
    }

    lemma NothingMoved()
      requires Writing() || WriteDone()
      ensures Block() == 0 ==> image == image0 && received == []
    {
      hide PutLba, BoundaryFrom;
      NothingStored(image0, ImageBase(), start);
    }

    /** A transfer in blocks of no sectors, once it is under way, is under way after any number of
        data requests, each of which it answers; nothing else comes of it. */
    method NeverEnds(n: nat)
      requires Active() && irqs == blocks && Block() == 0 && count != 0
      modifies `xferLba, `count, `addr, `ioSize, `state, `xferCnt, `xferIrq
      modifies `image, `filePos, `failed, `good, `received, `sent, `blocks, `irqs, buf, io
      ensures Active() && state == old(state) && xferLba == old(xferLba) && count == old(count)
      ensures sent == old(sent) && received == old(received) && irqs == blocks >= old(blocks) + n
    {
      hide Reading, ReadDone, Writing, WriteDone, PutLba, Active, Finished;
      for i := 0 to n
        invariant Active() && irqs == blocks >= old(blocks) + i && count == old(count)
        invariant state == old(state) && xferLba == old(xferLba) && sent == old(sent) && received == old(received)
      {
        DataRequest();
        OverWhenIdle();
      }
    }

    lemma OverWhenIdle()
      requires Active() || Finished()
      ensures state == Idle <==> !Active()
    {
    }

    /** How much of the transfer is outstanding. */
    ghost function Left(): int
      reads `start, `total, `xferLba
    {
      start + total - xferLba
    }

    lemma LeftOver()
      requires Active()
      ensures Left() > 0
    {
    }

    /** Arithmetic of a finished block. */
    lemma AfterBlock()
      requires Aligned() && NextBlock()
      ensures var next := xferLba + xferCnt;
              && (count - xferCnt) % 256 == (total - (next - start)) % 256
              && (Block() > 0 ==> 0 < next) && next - start <= (if Block() > 0 then total else 0)
              && (Block() > 0 && next < offset && next - start < total ==>
                    ImageBase() == BoundaryFrom(next, Block(), offset))
              && (next >= offset && next - start < total ==> ImageBase() <= next)
    {
      BaseAbove(xferLba, Block(), offset);
    }
  }

  lemma TakeAll(r: seq<Sector>, data: seq<Sector>, good: nat)
    ensures r[..|r|] == r && (r + data)[..|r| + |data|] == r + data
    ensures good <= |r| ==> (r + data)[..good] == r[..good]
  {
  }

  /** A block that begins before the image lies before where the image appears to start. */
  lemma BaseAbove(l: nat, b: nat, offset: nat)
    ensures b >= 1 && l < offset ==>
              BoundaryFrom(l, b, offset) >= l + b && BoundaryFrom(l, b, offset) == BoundaryFrom(l + b, b, offset)
  {
  }

  /** Two channels with a transfer each under way, resumed in any order until both are done.
      Neither disturbs the other, so each ends as it would alone, although what the host writes
      passes through one buffer and anything may be put in it between two requests. */
  method Interleaved(a: Channel, b: Channel)
    requires a != b && a.buf != b.buf && a.io == b.io && a.io != a.buf && b.io != b.buf
    requires a.Active() && a.irqs == a.blocks && b.Active() && b.irqs == b.blocks
    requires 0 < a.Block() && 0 < b.Block()
    modifies a, a.buf, b, b.buf, a.io
    ensures a.Finished() && a.irqs == a.blocks && a.start == old(a.start) && a.total == old(a.total)
    ensures b.Finished() && b.irqs == b.blocks && b.start == old(b.start) && b.total == old(b.total)
    ensures old(a.state) == WaitRd ==> a.ReadDone() && a.image == old(a.image)
    ensures old(a.state) == WaitWr ==> a.WriteDone() && a.image0 == old(a.image0)
    ensures old(b.state) == WaitRd ==> b.ReadDone() && b.image == old(b.image)
    ensures old(b.state) == WaitWr ==> b.WriteDone() && b.image0 == old(b.image0)
  {
    hide Channel.Reading, Channel.ReadDone, Channel.Writing, Channel.WriteDone;
    a.LeftOver();
    b.LeftOver();
    while a.state != Idle || b.state != Idle
      invariant a.Active() || a.Finished()
      invariant b.Active() || b.Finished()
      invariant a.irqs == a.blocks && a.start == old(a.start) && a.total == old(a.total)
      invariant b.irqs == b.blocks && b.start == old(b.start) && b.total == old(b.total)
      invariant 0 < a.Block() && 0 < b.Block() && a.image0 == old(a.image0) && b.image0 == old(b.image0)
      invariant (a.state == old(a.state) && a.Left() > 0) || a.state == Idle
      invariant old(a.state) == WaitRd ==> a.image == old(a.image) && (a.state == Idle ==> a.ReadDone())
      invariant old(a.state) == WaitWr ==> (a.state == Idle ==> a.WriteDone())
      invariant (b.state == old(b.state) && b.Left() > 0) || b.state == Idle
      invariant old(b.state) == WaitRd ==> b.image == old(b.image) && (b.state == Idle ==> b.ReadDone())
      invariant old(b.state) == WaitWr ==> (b.state == Idle ==> b.WriteDone())
      decreases (if a.state != Idle then a.Left() else 0) + (if b.state != Idle then b.Left() else 0)
    {
      var first := *;
      a.HostData(a.io.Length);
      if a.state != Idle && (first || b.state == Idle) {
        a.DataRequest();
      } else {
        b.DataRequest();
      }
    }
  }
}
