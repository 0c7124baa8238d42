/** The track table of a disc made from a cue sheet, and finding the track of a sector. */
module CdTracks {
  import opened Numbers

  /** Arithmetic is in 32 bits. */
  function U32(x: int): (r: nat)
    ensures r < WRAP && (0 <= x < WRAP ==> r == x)
  {
    x % WRAP
  }

  datatype Track = Track(number: nat, start: nat, length: nat, skip: nat, size: nat, file: nat)

  function End(t: Track): (e: nat)
    ensures e < WRAP
  {
    U32(t.start + t.length)
  }

  // ---------- adding a track ----------

  /** What the cue sheet says of a track: where it starts and, unless negative, where its index 0
      is, how long a pregap precedes it, where the data of its file begins, and how much there is
      in the file of the track before. */
  datatype Cue = Cue(track: Track, prestart: int, pregap: nat, data: nat, previous: nat)

  datatype Table = Table(tracks: seq<Track>, shift: nat, pregaps: nat)

  function Skip(c: Cue): int {
    if c.prestart >= 0 then c.track.start - c.prestart else 0
  }

  function Bytes(sectors: int, size: nat): int { sectors * size }

  function Same(t: Table, c: Cue): bool
    requires t.tracks != []
  {
    t.tracks[|t.tracks| - 1].file == c.track.file
  }

  /** The length of the last track, once the next one is known. */
  function Length(t: Table, c: Cue): nat
    requires t.tracks != []
    requires !Same(t, c) ==> t.tracks[|t.tracks| - 1].size > 0
  {
    var prev := t.tracks[|t.tracks| - 1];
    if Same(t, c) then
      if prev.length != 0 then prev.length else U32(c.track.start + t.shift + t.pregaps - prev.start - Skip(c))
    else
      var bytes := U32(c.previous - prev.skip);
      U32(bytes / prev.size + if bytes % prev.size != 0 then 1 else 0)
  }

  /** Where the next track starts on the disc. */
  function Begin(t: Table, c: Cue): nat
    requires t.tracks != []
    requires !Same(t, c) ==> t.tracks[|t.tracks| - 1].size > 0
  {
    if Same(t, c) then U32(c.track.start + t.shift + U32(t.pregaps + c.pregap))
    else U32(c.track.start + t.tracks[|t.tracks| - 1].start + Length(t, c) + c.pregap)
  }

  function Offset(t: Table, c: Cue): nat
    requires t.tracks != []
    requires !Same(t, c) ==> t.tracks[|t.tracks| - 1].size > 0
  {
    var prev := t.tracks[|t.tracks| - 1];
    if Same(t, c) then U32(c.track.skip + prev.skip + Bytes(Length(t, c), prev.size) + Bytes(Skip(c), c.track.size))
    else U32(c.data + Bytes(Skip(c), c.track.size))
  }

  /** Whether `add_track` takes the track. */
  predicate Accepts(t: Table, c: Cue)
    requires t.tracks != [] ==> !Same(t, c) ==> t.tracks[|t.tracks| - 1].size > 0
  {
    |t.tracks| < 100 && c.prestart <= c.track.start
    && (t.tracks == []
        || (var prev := t.tracks[|t.tracks| - 1];
            c.track.number > 1 && prev.number + 1 == c.track.number
            && Begin(t, c) >= End(prev.(length := Length(t, c)))))
  }

  function Added(t: Table, c: Cue): Table
    requires t.tracks != [] ==> !Same(t, c) ==> t.tracks[|t.tracks| - 1].size > 0
  {
    if t.tracks == [] then
      var curr := c.track.(start := U32(c.track.start + c.pregap), skip := U32(c.data + Bytes(Skip(c), c.track.size)));
      Table([curr], t.shift, c.pregap)
    else
      var n := |t.tracks|;
      var prev := t.tracks[n - 1].(length := Length(t, c));
      var curr := c.track.(start := Begin(t, c), skip := Offset(t, c));
      if Same(t, c) then Table(t.tracks[..n - 1] + [prev, curr], t.shift, U32(t.pregaps + c.pregap))
      else Table(t.tracks[..n - 1] + [prev, curr], U32(t.shift + prev.start + prev.length), c.pregap)
  }

  class Drive {
    var tracks: seq<Track>
    var shift: nat
    var pregaps: nat

    function Current(): Table
      reads this
    {
      Table(tracks, shift, pregaps)
    }

    /** `add_track`. */
    method Add(c: Cue) returns (ok: bool)
      requires tracks != [] ==> !Same(Current(), c) ==> tracks[|tracks| - 1].size > 0
      requires c.track.start < 0x8000_0000
      modifies this
      ensures ok == Accepts(old(Current()), c)
      ensures ok ==> Current() == Added(old(Current()), c)
    {
      hide U32, End, Bytes;
      var curr, skip := c.track, 0;
      if |tracks| >= 100 { return false; }
      if c.prestart >= 0 {
        if c.prestart > curr.start { return false; }
        skip := curr.start - c.prestart;
      }
      if |tracks| == 0 {
        curr := curr.(skip := U32(c.data + Bytes(skip, curr.size)), start := U32(curr.start + c.pregap));
        pregaps := c.pregap;
        tracks := [curr];
        return true;
      }
      var n := |tracks| - 1;
      var prev := tracks[n];
      if prev.file == curr.file {
        if prev.length == 0 { prev := prev.(length := U32(curr.start + shift + pregaps - prev.start - skip)); }
        pregaps := U32(pregaps + c.pregap);
        curr := curr.(skip := U32(curr.skip + prev.skip + Bytes(prev.length, prev.size) + Bytes(skip, curr.size)),
                      start := U32(curr.start + shift + pregaps));
      } else {
        var bytes := U32(c.previous - prev.skip);
        prev := prev.(length := U32(bytes / prev.size + if bytes % prev.size != 0 then 1 else 0));
        curr := curr.(start := U32(curr.start + prev.start + prev.length + c.pregap),
                      skip := U32(c.data + Bytes(skip, curr.size)));
        shift := U32(shift + prev.start + prev.length);
        pregaps := c.pregap;
      }
      tracks := tracks[..n] + [prev];
      if curr.number <= 1 || prev.number + 1 != curr.number || curr.start < End(prev) { return false; }
      tracks := tracks + [curr];
      return true;
    }

    /** `get_track_from_lba`: the index of the track, and whether the sector is in its pregap. */
    method Find(lba: nat) returns (i: int, index0: bool)
      ensures i == Where(tracks, lba) && (index0 <==> i != -1 && lba < tracks[i].start)
    {
      index0 := false;
      i := 0;
      while i < |tracks|
        invariant 0 <= i <= |tracks| && !index0
        invariant forall k :: 0 <= k < i ==> !Within(tracks, k, lba)
      {
        var start := if i > 0 then End(tracks[i - 1]) else 0;
        if lba >= start && lba < End(tracks[i]) {
          if lba < tracks[i].start { index0 := true; }
          assert Within(tracks, i, lba);
          return;
        }
        i := i + 1;
      }
      i := -1;
    }
  }

  // ---------- which track a sector is in ----------

  /** The sectors from the end of the track before to the end of this one. */
  predicate Within(tracks: seq<Track>, i: nat, lba: nat)
    requires i < |tracks|
  {
    (i == 0 || End(tracks[i - 1]) <= lba) && lba < End(tracks[i])
  }

  /** The first track that a sector is in, or -1. */
  function Where(tracks: seq<Track>, lba: nat): (i: int)
    ensures i == -1 ==> forall k :: 0 <= k < |tracks| ==> !Within(tracks, k, lba)
    ensures i != -1 ==> 0 <= i < |tracks| && Within(tracks, i, lba)
                        && forall k :: 0 <= k < i ==> !Within(tracks, k, lba)
  {
    if InSome(tracks, lba) then FirstFrom(tracks, lba, 0) else -1
  }

  function FirstFrom(tracks: seq<Track>, lba: nat, from: nat): (i: nat)
    requires exists k :: from <= k < |tracks| && Within(tracks, k, lba)
    ensures from <= i < |tracks| && Within(tracks, i, lba) && forall k :: from <= k < i ==> !Within(tracks, k, lba)
    decreases |tracks| - from
  {
    if Within(tracks, from, lba) then from else FirstFrom(tracks, lba, from + 1)
  }

  function LeadOut(tracks: seq<Track>): nat
    requires tracks != []
  {
    End(tracks[|tracks| - 1])
  }

  /** No track ends before an earlier one, as far as the lead-out. */
  predicate Ordered(tracks: seq<Track>)
    requires tracks != []
  {
    forall i :: 0 < i < |tracks| ==> Min(End(tracks[i - 1]), LeadOut(tracks)) <= End(tracks[i])
  }

  predicate InOne(tracks: seq<Track>, lba: nat) {
    forall i, j :: 0 <= i < j < |tracks| ==> !(Within(tracks, i, lba) && Within(tracks, j, lba))
  }

  /** The first track from `a` on that reaches beyond a sector begins at or before it. */
  lemma {:induction false} Reached(tracks: seq<Track>, a: nat, b: nat, lba: nat) returns (i: nat)
    requires a <= b < |tracks| && (a == 0 || End(tracks[a - 1]) <= lba) && lba < End(tracks[b])
    ensures a <= i <= b && Within(tracks, i, lba)
    decreases b - a
  {
    if lba < End(tracks[a]) { i := a; } else { i := Reached(tracks, a + 1, b, lba); }
  }

  lemma {:induction false} Stays(tracks: seq<Track>, i: nat, j: nat, lba: nat)
    requires tracks != [] && Ordered(tracks) && i <= j < |tracks| && lba < End(tracks[i]) && lba < LeadOut(tracks)
    ensures lba < End(tracks[j])
    decreases j - i
  {
    if i >= j {
    } else {
      Stays(tracks, i + 1, j, lba);
    }
  }

  predicate InSome(tracks: seq<Track>, lba: nat) {
    exists i :: 0 <= i < |tracks| && Within(tracks, i, lba)
  }

  /** Every sector before the lead-out is in a track; and each is in one track only exactly when the
      tracks end in order. */
  lemma ExactlyOne(tracks: seq<Track>)
    requires tracks != []
    ensures forall lba: nat :: lba < LeadOut(tracks) ==> InSome(tracks, lba)
    ensures (forall lba: nat :: lba < LeadOut(tracks) ==> InOne(tracks, lba)) <==> Ordered(tracks)
  {
    hide End;
    var last := |tracks| - 1;
    forall lba: nat | lba < LeadOut(tracks) ensures InSome(tracks, lba) {
      var i := Reached(tracks, 0, last, lba);
    }
    if Ordered(tracks) {
      forall lba: nat | lba < LeadOut(tracks) ensures InOne(tracks, lba) {
        forall i, j | 0 <= i < j < |tracks| ensures !(Within(tracks, i, lba) && Within(tracks, j, lba)) {
          if Within(tracks, i, lba) { Stays(tracks, i, j - 1, lba); }
        }
      }
    } else {
      var i :| 0 < i < |tracks| && Min(End(tracks[i - 1]), LeadOut(tracks)) > End(tracks[i]);
      var lba := End(tracks[i]);
      var a := Reached(tracks, 0, i - 1, lba);
      var b := Reached(tracks, i + 1, last, lba);
      assert !InOne(tracks, lba);
    }
  }

  // ---------- cue sheets that go forwards, and one that does not ----------

  /** Every track begins where the one before ends, or later, without wrapping round. */
  predicate Straight(tracks: seq<Track>) {
    && (forall i :: 0 <= i < |tracks| ==> tracks[i].start + tracks[i].length < WRAP)
    && (forall i :: 0 < i < |tracks| ==> tracks[i - 1].start + tracks[i - 1].length <= tracks[i].start)
  }

  /** Then each sector before the lead-out is in exactly one track: in the track itself or in the gap
      between it and the track before. */
  lemma StraightTracks(tracks: seq<Track>, lba: nat)
    requires tracks != [] && Straight(tracks) && lba < LeadOut(tracks)
    ensures InSome(tracks, lba) && InOne(tracks, lba)
    ensures forall i :: 0 <= i < |tracks| ==>
              (Within(tracks, i, lba) <==> (i == 0 || tracks[i - 1].start + tracks[i - 1].length <= lba)
                                           && lba < tracks[i].start + tracks[i].length)
  {
    forall i | 0 < i < |tracks| ensures End(tracks[i - 1]) <= End(tracks[i]) {
      assert tracks[i - 1].start + tracks[i - 1].length < WRAP;
    }
    assert Ordered(tracks);
    ExactlyOne(tracks);
  }

  /** A track accepted from the same file keeps the table straight exactly when it does not begin
      before the track that it closes. */
  lemma SameFile(t: Table, c: Cue)
    requires t.tracks != [] && Straight(t.tracks) && Same(t, c) && Accepts(t, c)
    requires t.tracks[|t.tracks| - 1].length == 0 && c.track.length == 0
    requires c.track.start + t.shift + t.pregaps + c.pregap < WRAP
    ensures Straight(Added(t, c).tracks)
       <==> c.track.start + t.shift + t.pregaps >= t.tracks[|t.tracks| - 1].start + Skip(c)
  {
    var n, new_ := |t.tracks|, Added(t, c).tracks;
    var x := c.track.start + t.shift + t.pregaps - t.tracks[n - 1].start - Skip(c);
    assert new_[n - 1].length == U32(x) && new_[n - 1].start == t.tracks[n - 1].start;
    assert new_[n].start == c.track.start + t.shift + t.pregaps + c.pregap;
    if x < 0 { assert U32(x) == x + WRAP; }
    assert forall i :: 0 <= i < n - 1 ==> new_[i] == t.tracks[i];
  }

  /** A track accepted from another file always does, as far as 32 bits reach. */
  lemma OtherFile(t: Table, c: Cue)
    requires t.tracks != [] && Straight(t.tracks) && t.tracks[|t.tracks| - 1].size > 0 && !Same(t, c) && Accepts(t, c)
    requires c.track.length == 0
    requires c.track.start + t.tracks[|t.tracks| - 1].start + Length(t, c) + c.pregap < WRAP
    ensures Straight(Added(t, c).tracks)
  {
    var n, new_ := |t.tracks|, Added(t, c).tracks;
    assert forall i :: 0 <= i < n - 1 ==> new_[i] == t.tracks[i];
    assert new_[n - 1].start == t.tracks[n - 1].start;
  }

  // A cue sheet of three tracks in one file, each beginning before the one above it.

  function Raw(number: nat, start: nat, length: nat, skip: nat, file: nat): Track {
    Track(number, start, length, skip, 2352, file)
  }

  function First(): Table { Table([Raw(1, 100, 0, 0, 1)], 0, 0) }

  function CueOf(number: nat, start: nat, file: nat, previous: nat): Cue {
    Cue(Raw(number, start, 0, 0, file), -1, 0, 0, previous)
  }

  function Second(): Table { Table([Raw(1, 100, WRAP - 50, 0, 1), Raw(2, 50, 0, WRAP - 117600, 1)], 0, 0) }

  function Third(): Table {
    Table([Raw(1, 100, WRAP - 50, 0, 1), Raw(2, 50, WRAP - 30, WRAP - 117600, 1), Raw(3, 20, 0, WRAP - 188160, 1)],
          0, 0)
  }

  lemma AddFirst()
    ensures Accepts(Table([], 0, 0), CueOf(1, 100, 1, 0)) && Added(Table([], 0, 0), CueOf(1, 100, 1, 0)) == First()
  {
  }

  lemma AddSecond()
    ensures Accepts(First(), CueOf(2, 50, 1, 0)) && Added(First(), CueOf(2, 50, 1, 0)) == Second()
  {
  }

  lemma AddThird()
    ensures Accepts(Second(), CueOf(3, 20, 1, 0)) && Added(Second(), CueOf(3, 20, 1, 0)) == Third()
  {
  }

  /** And with the lead-out, after a file of twenty sectors. */
  function Fourth(): Table {
    Table([Raw(1, 100, WRAP - 50, 0, 1), Raw(2, 50, WRAP - 30, WRAP - 117600, 1), Raw(3, 20, 100, WRAP - 188160, 1),
           Raw(4, 120, 0, 0, 0)], 120, 0)
  }

  lemma AddEnd()
    ensures Accepts(Third(), CueOf(4, 0, 0, 47040)) && Added(Third(), CueOf(4, 0, 0, 47040)) == Fourth()
  {
    assert Length(Third(), CueOf(4, 0, 0, 47040)) == 100;
  }

  /** It is accepted, track by track, and sector 30 is in two of its tracks. */
  lemma Backwards()
    ensures Accepts(Table([], 0, 0), CueOf(1, 100, 1, 0)) && Added(Table([], 0, 0), CueOf(1, 100, 1, 0)) == First()
    ensures Accepts(First(), CueOf(2, 50, 1, 0)) && Added(First(), CueOf(2, 50, 1, 0)) == Second()
    ensures Accepts(Second(), CueOf(3, 20, 1, 0)) && Added(Second(), CueOf(3, 20, 1, 0)) == Third()
    ensures Accepts(Third(), CueOf(4, 0, 0, 47040)) && Added(Third(), CueOf(4, 0, 0, 47040)) == Fourth()
    ensures 30 < LeadOut(Fourth().tracks) && Within(Fourth().tracks, 0, 30) && Within(Fourth().tracks, 2, 30)
  {
    hide Accepts, Added, Length, Begin, Offset;
    AddFirst();
    AddSecond();
    AddThird();
    AddEnd();
  }
}
