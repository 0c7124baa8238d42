/** Resumable PIO transfers of one channel: blocks are sent or received one at a time, and at
    every block boundary the channel may give up and be continued by a later data request. */
module IdeTransfer {
  import opened Numbers
  import opened IdeAddress

  /** The 512 bytes of a sector, as one number. */
  type Sector = nat

  const ZERO: Sector := 0
  const IO_MAX: nat := 32

  datatype Phase = Idle | WaitRd | WaitWr

  // ---------- blocks ----------

  /** The sectors of the next block, from the count register and the block size (`get_cnt`). */
  function BlockCount(count: nat, spb: nat): nat {
    if count == 0 || count > spb then spb else count
  }

  /** The number of sectors a count register asks for. */
  function Requested(count: nat): nat { if count == 0 then 256 else count }

  /** The count register while `left` sectors are outstanding gives the right block. */
  lemma BlockCountIs(left: nat, spb: nat)
    requires 1 <= left <= 256 && spb <= IO_MAX
    ensures BlockCount(left % 256, spb) == Min(spb, left)
  {
  }

  // ---------- where a sector comes from ----------

  datatype Place = InRdb(x: nat) | InImage(i: nat)

  /** A drive whose image starts at sector `offset`, with made-up sectors before it. */
  function PlaceOf(offset: nat, x: nat): Place {
    if x < offset then InRdb(x) else InImage(x - offset)
  }

  /** The first block boundary at or above `offset`, for blocks of `b` sectors from `l` on. */
  function BoundaryFrom(l: nat, b: nat, offset: nat): (r: nat)
    requires b >= 1
    ensures r >= l && r >= offset
    decreases offset - l
  {
    if l >= offset then l else BoundaryFrom(l + b, b, offset)
  }

  /** Where the image appears to start to a transfer: the engine decides once per block. */
  function Base(start: nat, b: nat, offset: nat): (r: nat)
    ensures r >= offset
  {
    if start >= offset || b == 0 then offset else BoundaryFrom(start, b, offset)
  }

  lemma {:induction false} BoundaryExact(l: nat, b: nat, offset: nat)
    requires b >= 1 && l <= offset
    ensures BoundaryFrom(l, b, offset) == offset <==> (offset - l) % b == 0
    decreases offset - l
  {
    if l >= offset {
      ModLess(0, b);
    } else if l + b <= offset {
      BoundaryExact(l + b, b, offset);
      ModStep(offset - l, b);
    } else {
      ModLess(offset - l, b);
      assert BoundaryFrom(l, b, offset) == l + b;
    }
  }

  lemma ModLess(a: nat, b: nat)
    requires a < b
    ensures a % b == a
  {
  }

  /** The sectors of a transfer all come from where the drive has them exactly when no block of
      it straddles the start of the image. */
  lemma PlacesExact(start: nat, b: nat, offset: nat, n: nat)
    requires b >= 1
    ensures (forall x :: start <= x < start + n ==> PlaceOf(Base(start, b, offset), x) == PlaceOf(offset, x))
       <==> (offset <= start || start + n <= offset || (offset - start) % b == 0)
  {
    if start < offset {
      BoundaryExact(start, b, offset);
      if offset < start + n && (offset - start) % b != 0 {
        assert PlaceOf(Base(start, b, offset), offset) != PlaceOf(offset, offset);
      }
    }
  }

  /** A transfer of two sectors in one block, from the last of 32 made-up sectors on: the second of
      them is made up as well. */
  lemma StraddlingBlock()
    ensures Base(31, 16, 32) == 47
    ensures PlaceOf(32, 32) == InImage(0) && PlaceOf(Base(31, 16, 32), 32) == InRdb(32)
  {
  }

  // ---------- what was delivered and what was stored ----------

  /** What a place holds; places past the end of the image promise nothing. */
  ghost predicate Holds(p: Place, rdb: nat -> Sector, image: seq<Sector>, c: Sector) {
    match p
    case InRdb(x) => c == rdb(x)
    case InImage(i) => i < |image| ==> c == image[i]
  }

  /** Sectors sent from `start` on: right up to `good`, zeros after a failed read. */
  ghost predicate Delivered(sent: seq<Sector>, start: nat, base: nat, good: nat, rdb: nat -> Sector,
                            image: seq<Sector>) {
    forall k :: 0 <= k < |sent| ==>
      if k < good then Holds(PlaceOf(base, start + k), rdb, image, sent[k]) else sent[k] == ZERO
  }

  /** A block of the right sectors for its places. */
  ghost predicate RightBlock(block: seq<Sector>, lba: nat, base: nat, rdb: nat -> Sector, image: seq<Sector>) {
    forall i :: 0 <= i < |block| ==> Holds(PlaceOf(base, lba + i), rdb, image, block[i])
  }

  lemma DeliveredRight(sent: seq<Sector>, block: seq<Sector>, start: nat, base: nat, rdb: nat -> Sector,
                       image: seq<Sector>)
    requires Delivered(sent, start, base, |sent|, rdb, image)
    requires RightBlock(block, start + |sent|, base, rdb, image)
    ensures Delivered(sent + block, start, base, |sent| + |block|, rdb, image)
  {
    var all := sent + block;
    forall k | 0 <= k < |all| ensures Holds(PlaceOf(base, start + k), rdb, image, all[k]) {
      if k >= |sent| { assert all[k] == block[k - |sent|]; }
    }
  }

  lemma DeliveredZeros(sent: seq<Sector>, block: seq<Sector>, start: nat, base: nat, good: nat, rdb: nat -> Sector,
                       image: seq<Sector>)
    requires Delivered(sent, start, base, good, rdb, image) && good <= |sent|
    requires forall i :: 0 <= i < |block| ==> block[i] == ZERO
    ensures Delivered(sent + block, start, base, good, rdb, image)
  {
  }

  lemma NothingDelivered(start: nat, base: nat, good: nat, rdb: nat -> Sector, image: seq<Sector>)
    ensures Delivered([], start, base, good, rdb, image)
  {
  }

  function Zeros(n: nat): (z: seq<Sector>)
    ensures |z| == n
  {
    seq(n, _ => ZERO)
  }

  /** One sector written to a file, which grows as needed. */
  function WriteAt(image: seq<Sector>, i: nat, c: Sector): (r: seq<Sector>)
    ensures i < |r|
  {
    if i < |image| then image[i := c] else image + Zeros(i - |image|) + [c]
  }

  function WriteSectors(image: seq<Sector>, i: nat, data: seq<Sector>): seq<Sector> {
    if data == [] then image
    else WriteAt(WriteSectors(image, i, data[..|data| - 1]), i + |data| - 1, data[|data| - 1])
  }

  /** The image after storing data received for the sectors from `start` on; the sectors before
      the image are not stored. */
  function Stored(image: seq<Sector>, base: nat, start: nat, data: seq<Sector>): seq<Sector> {
    if data == [] then image
    else
      var n := |data| - 1;
      var r := Stored(image, base, start, data[..n]);
      match PlaceOf(base, start + n)
      case InRdb(_) => r
      case InImage(i) => WriteAt(r, i, data[n])
  }

  lemma NothingStored(image: seq<Sector>, base: nat, start: nat)
    ensures Stored(image, base, start, []) == image
  {
  }

  /** Data that all belongs before the image is dropped. */
  lemma {:induction false} StoredNothing(image: seq<Sector>, base: nat, start: nat, data: seq<Sector>)
    requires start + |data| <= base
    ensures Stored(image, base, start, data) == image
  {
    if data == [] {
    } else {
      StoredNothing(image, base, start, data[..|data| - 1]);
    }
  }

  lemma {:induction false} StoredAppend(image: seq<Sector>, base: nat, start: nat, d: seq<Sector>, e: seq<Sector>)
    ensures start + |d| >= base ==>
      Stored(image, base, start, d + e) == WriteSectors(Stored(image, base, start, d), start + |d| - base, e)
    ensures start + |d| + |e| <= base ==> Stored(image, base, start, d + e) == Stored(image, base, start, d)
  {
    if e == [] {
      assert d + e == d;
    } else {
      var n := |e| - 1;
      StoredAppend(image, base, start, d, e[..n]);
      assert (d + e)[..|d| + n] == d + e[..n];
    }
  }

  /** Reading back a place that was stored gives the data, and other sectors are untouched. */
  lemma {:induction false} StoredAt(image: seq<Sector>, base: nat, start: nat, data: seq<Sector>, i: nat)
    ensures var r := Stored(image, base, start, data);
            && |r| >= |image|
            && (start <= i + base < start + |data| ==> i < |r| && r[i] == data[i + base - start])
            && (!(start <= i + base < start + |data|) && i < |image| ==> r[i] == image[i])
  {
    if data == [] {
    } else {
      StoredAt(image, base, start, data[..|data| - 1], i);
    }
  }

  /** What is sent is the made-up sector of the same number, or the image's sector that counts from
      where the image starts; read from there and as long as it is, the image itself. */
  lemma SentIs(sent: seq<Sector>, start: nat, base: nat, good: nat, rdb: nat -> Sector, image: seq<Sector>, k: nat)
    requires Delivered(sent, start, base, good, rdb, image) && k < |sent|
    ensures k >= good ==> sent[k] == 0
    ensures k < good && start + k < base ==> sent[k] == rdb(start + k)
    ensures k < good && base <= start + k < base + |image| ==> sent[k] == image[start + k - base]
    ensures start == base && good == |sent| == |image| ==> sent == image
  {
    if start == base && good == |sent| == |image| {
      forall j | 0 <= j < |sent| ensures sent[j] == image[j] {
        assert Holds(PlaceOf(base, start + j), rdb, image, sent[j]);
      }
    }
  }

  /** What is stored from where the image starts and as long as it is, is the image then. */
  lemma WholeStored(image: seq<Sector>, base: nat, data: seq<Sector>)
    requires |data| == |image|
    ensures Stored(image, base, base, data) == data
  {
    hide Stored;
    StoredSize(image, base, base, data);
    forall i | 0 <= i < |data| ensures Stored(image, base, base, data)[i] == data[i] {
      StoredAt(image, base, base, data, i);
    }
    StoredAt(image, base, base, data, 0);
  }

  lemma {:induction false} StoredSize(image: seq<Sector>, base: nat, start: nat, data: seq<Sector>)
    ensures |Stored(image, base, start, data)|
         == if data == [] || start + |data| <= base || start + |data| - base <= |image| then |image|
            else start + |data| - base
  {
    if data == [] {
    } else {
      StoredSize(image, base, start, data[..|data| - 1]);
    }
  }
}
