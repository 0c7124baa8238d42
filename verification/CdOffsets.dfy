/** Where the tracks of a whole cue sheet are put, on the disc and in their files. */
module CdOffsets {
  import opened Numbers
  import opened CdTracks
  import opened CdSheet

  // ---------- arithmetic in 32 bits ----------

  lemma Wraps(x: int, q: int)
    ensures U32(x + WRAP * q) == U32(x)
  {
  }

  /** What is cut off a term or a factor does not matter in the end. */
  lemma CutTerm(a: int, x: int)
    ensures U32(a + U32(x)) == U32(a + x)
  {
    Wraps(a + U32(x), x / WRAP);
  }

  lemma CutFactor(a: int, x: int, s: nat)
    ensures U32(a + Bytes(U32(x), s)) == U32(a + Bytes(x, s))
  {
    hide U32;
    var q := x / WRAP;
    Low32(x);
    Distribute(U32(x), WRAP * q, s);
    Regroup(q, s);
    Wraps(a + Bytes(U32(x), s), Bytes(q, s));
  }

  lemma Low32(x: int)
    ensures U32(x) == x - WRAP * (x / WRAP)
  {
  }

  lemma Distribute(x: int, y: int, s: nat)
    ensures Bytes(x + y, s) == Bytes(x, s) + Bytes(y, s)
  {
  }

  lemma Regroup(q: int, s: nat)
    ensures Bytes(WRAP * q, s) == WRAP * Bytes(q, s)
  {
  }

  // ---------- a track of the same file ----------

  /** The table's row of the last track, and of the one before it. */
  lemma SameRow(t: Table, c: Cue)
    requires t.tracks != [] && Same(t, c)
    ensures var u, n := Added(t, c).tracks, |t.tracks|;
            |u| == n + 1 && u[n - 1].skip == t.tracks[n - 1].skip
            && u[n].skip == U32(c.track.skip + t.tracks[n - 1].skip + Bytes(Length(t, c), t.tracks[n - 1].size)
                                + Bytes(Skip(c), c.track.size))
  {
    hide U32, Bytes, Length, Begin;
  }

  lemma SameLength(t: Table, c: Cue)
    requires t.tracks != [] && Same(t, c) && t.tracks[|t.tracks| - 1].length == 0
    ensures Length(t, c) == U32(Index0(c) + t.shift + t.pregaps - t.tracks[|t.tracks| - 1].start)
  {
  }

  /** A track's data lies behind that of the track before by the sectors between their index 1, those
      before its index 0 being of the size of the track before. */
  lemma {:induction false} NextInFile(cs: seq<Cue>)
    requires |cs| > 1 && Sheet(cs).Loaded? && Plain(cs) && Last(Front(cs)).track.file == Last(cs).track.file
    ensures var t, p, c := Sheet(cs).table.tracks, Last(Front(cs)), Last(cs);
            t[|cs| - 1].skip == U32(c.track.skip + t[|cs| - 2].skip
                                    + Bytes(Index0(c) - p.track.start + Lag(Front(cs)), p.track.size)
                                    + Bytes(c.track.start - Index0(c), c.track.size))
  {
    hide Accepts, Added, U32, Bytes, Length, PlainStep, Lag;
    var t, c := Sheet(Front(cs)).table, Last(cs);
    LastTrack(Front(cs));
    SameRow(t, c);
    SameLength(t, c);
    var prev := t.tracks[|t.tracks| - 1];
    var rest := c.track.skip + prev.skip + Bytes(Skip(c), c.track.size);
    CutFactor(rest, Index0(c) + t.shift + t.pregaps - prev.start, prev.size);
  }

  lemma {:induction false} NextStart(cs: seq<Cue>)
    requires |cs| > 1 && Sheet(cs).Loaded? && Plain(cs) && Last(Front(cs)).track.file == Last(cs).track.file
    ensures var t, p, c := Sheet(cs).table.tracks, Last(Front(cs)), Last(cs);
            t[|cs| - 1].start == t[|cs| - 2].start + c.track.start - p.track.start + Lag(Front(cs)) + c.pregap
  {
    hide Accepts, Bytes, Length, Offset, Lag, U32;
    var t, c := Sheet(Front(cs)).table, Last(cs);
    LastTrack(Front(cs));
    PlainStart(t, c);
  }

  lemma PlainStart(t: Table, c: Cue)
    requires t.tracks != [] && Same(t, c) && CanClose(t, c) && PlainStep(t, c)
    ensures var u, n := Added(t, c).tracks, |t.tracks|;
            u[n - 1].start == t.tracks[n - 1].start && u[n].start == c.track.start + t.shift + t.pregaps + c.pregap
  {
    hide Bytes, Length, Offset;
  }

  // ---------- all tracks of one file ----------

  /** From track `f` on, all tracks are of its file and its sector size, and have no offset of their own. */
  predicate OneFile(cs: seq<Cue>, f: nat) {
    forall j :: f <= j < |cs| ==> InFileOf(cs, f, j)
  }

  predicate InFileOf(cs: seq<Cue>, f: nat, j: nat)
    requires f <= j < |cs|
  {
    cs[j].track.file == cs[f].track.file && cs[j].track.size == cs[f].track.size && (j > f ==> cs[j].track.skip == 0)
  }

  /** The pregaps from track `f` on. */
  function Pregaps(cs: seq<Cue>, f: nat): nat
    decreases |cs|
  {
    if |cs| <= f then 0 else Pregaps(Front(cs), f) + Last(cs).pregap
  }

  /** How far the tracks behind track `f` are put on by the lag of that track. */
  function LagOf(cs: seq<Cue>, f: nat): nat
    requires f < |cs| && Sheet(cs).Loaded?
  {
    Prefix(cs, f + 1);
    if f == |cs| - 1 then 0 else Lag(cs[..f + 1])
  }

  /** In the file, the last track lies behind track `f` by the sectors between their index 1; on the
      disc, by those and the pregaps; and both by the lag of track `f`, if it is the first of the file. */
  lemma {:induction false} LastInFile(cs: seq<Cue>, f: nat)
    requires f < |cs| && Sheet(cs).Loaded? && Plain(cs) && OneFile(cs, f)
    ensures var t, k, sectors := Sheet(cs).table.tracks, |cs| - 1,
                                 Last(cs).track.start - cs[f].track.start + LagOf(cs, f);
            t[k].skip == U32(t[f].skip + Bytes(sectors, cs[f].track.size))
            && t[k].start == t[f].start + sectors + Pregaps(cs, f + 1)
    decreases |cs|
  {
    hide Accepts, Added, PlainStep, Lag, U32, Bytes;
    if f == |cs| - 1 {
      NoBytes(cs[f].track.size);
      SkipBelow(cs);
    } else {
      var front := Front(cs);
      forall j | f <= j < |front| ensures InFileOf(front, f, j) { assert InFileOf(cs, f, j); }
      LastInFile(front, f);
      assert InFileOf(cs, f, |cs| - 1) && InFileOf(cs, f, |cs| - 2);
      NextInFile(cs);
      NextStart(cs);
      RowKept(cs, f);
      RowKept(cs, |cs| - 2);
      LagFrom(cs, f);
      var size, p, c := cs[f].track.size, Last(front), Last(cs);
      var before := p.track.start - cs[f].track.start + LagOf(front, f);
      var gap, rest := Index0(c) - p.track.start + Lag(front), c.track.start - Index0(c);
      Sum(Sheet(cs).table.tracks[f].skip, before, gap, rest, size);
    }
  }

  lemma Sum(a: nat, before: int, gap: int, rest: int, size: nat)
    ensures U32(U32(a + Bytes(before, size)) + Bytes(gap, size) + Bytes(rest, size))
         == U32(a + Bytes(before + gap + rest, size))
  {
    hide U32, Bytes;
    Distribute(before, gap + rest, size);
    Distribute(gap, rest, size);
    CutTerm(Bytes(gap + rest, size), a + Bytes(before, size));
  }

  lemma NoBytes(size: nat)
    ensures Bytes(0, size) == 0
  {
  }

  lemma {:induction false} SkipBelow(cs: seq<Cue>)
    requires cs != [] && Sheet(cs).Loaded?
    ensures U32(Sheet(cs).table.tracks[|cs| - 1].skip) == Sheet(cs).table.tracks[|cs| - 1].skip
  {
    hide Accepts, Length, Begin, Bytes;
  }

  /** A later track changes neither where an earlier one starts nor where its data begins. */
  lemma {:induction false} RowKept(cs: seq<Cue>, i: nat)
    requires i < |cs| - 1 && Sheet(cs).Loaded?
    ensures Sheet(Front(cs)).Loaded? && Sheet(cs).table.tracks[i].start == Sheet(Front(cs)).table.tracks[i].start
    ensures Sheet(cs).table.tracks[i].skip == Sheet(Front(cs)).table.tracks[i].skip
    ensures i < |cs| - 2 ==> Sheet(cs).table.tracks[i] == Sheet(Front(cs)).table.tracks[i]
  {
    hide Accepts, Added, Sheet;
    OneTable(cs);
    AddedKeeps(Sheet(Front(cs)).table, Last(cs), i);
  }

  lemma {:induction false} OneTable(cs: seq<Cue>)
    requires cs != [] && Sheet(cs).Loaded?
    ensures Sheet(Front(cs)).Loaded?
    ensures var t, c := Sheet(Front(cs)).table, Last(cs);
            CanClose(t, c) && Accepts(t, c) && Sheet(cs).table == Added(t, c) && |t.tracks| == |cs| - 1
  {
    hide Accepts, Added;
  }

  lemma AddedKeeps(t: Table, c: Cue, i: nat)
    requires CanClose(t, c) && i < |t.tracks|
    ensures |Added(t, c).tracks| == |t.tracks| + 1
    ensures var u, v := Added(t, c).tracks[i], t.tracks[i];
            u.start == v.start && u.skip == v.skip && u.number == v.number && (i < |t.tracks| - 1 ==> u == v)
  {
    hide Length, Begin, Offset, Bytes, U32;
  }

  lemma {:induction false} LagFrom(cs: seq<Cue>, f: nat)
    requires f < |cs| - 1 && Sheet(cs).Loaded? && OneFile(cs, f)
    ensures Sheet(Front(cs)).Loaded? && Lag(Front(cs)) + LagOf(Front(cs), f) == LagOf(cs, f)
  {
    hide Accepts, Added;
    var front := Front(cs);
    Prefix(cs, f + 1);
    assert front[..f + 1] == cs[..f + 1];
    if f == |front| - 1 {
      assert front[..f + 1] == front;
    } else {
      assert InFileOf(cs, f, |front| - 1) && InFileOf(cs, f, |front| - 2);
      LagOnlyAfterTwo(front);
    }
  }

  lemma {:induction false} RowOf(cs: seq<Cue>, i: nat)
    requires i < |cs| && Sheet(cs).Loaded?
    ensures Sheet(cs[..i + 1]).Loaded?
    ensures var u, v := Sheet(cs).table.tracks[i], Sheet(cs[..i + 1]).table.tracks[i];
            u.start == v.start && u.skip == v.skip
    decreases |cs|
  {
    hide Accepts, Added;
    if i == |cs| - 1 {
      assert cs[..i + 1] == cs;
    } else {
      RowKept(cs, i);
      RowOf(Front(cs), i);
      assert Front(cs)[..i + 1] == cs[..i + 1];
    }
  }

  /** The same for every track of the file, whatever comes behind it on the sheet. */
  lemma {:induction false} TrackInFile(cs: seq<Cue>, f: nat, i: nat)
    requires f <= i < |cs| && Sheet(cs).Loaded? && Plain(cs) && OneFile(cs[..i + 1], f)
    ensures Sheet(cs[..i + 1]).Loaded?
    ensures var t, sectors := Sheet(cs).table.tracks, cs[i].track.start - cs[f].track.start + LagOf(cs[..i + 1], f);
            t[i].skip == U32(t[f].skip + Bytes(sectors, cs[f].track.size))
            && t[i].start == t[f].start + sectors + Pregaps(cs[..i + 1], f + 1)
  {
    hide Accepts, Sheet, Bytes, LagOf, U32, Plain, OneFile, Pregaps;
    var part := cs[..i + 1];
    RowOf(cs, i);
    RowOf(cs, f);
    PrefixPlain(cs, i + 1);
    RowOf(part, f);
    assert part[..f + 1] == cs[..f + 1];
    LastInFile(part, f);
  }

  /** A sheet of one file: nothing lags. */
  lemma {:induction false} SingleFile(cs: seq<Cue>, i: nat)
    requires i < |cs| && Sheet(cs).Loaded? && Plain(cs) && OneFile(cs, 0)
    ensures var t, sectors := Sheet(cs).table.tracks, cs[i].track.start - cs[0].track.start;
            t[i].skip == U32(t[0].skip + Bytes(sectors, cs[0].track.size))
            && t[i].start == t[0].start + sectors + Pregaps(cs[..i + 1], 1)
  {
    hide Accepts, Sheet, Bytes, U32;
    OneFileBefore(cs, i + 1);
    RowOf(cs, i);
    TrackInFile(cs, 0, i);
  }

  lemma {:induction false} OneFileBefore(cs: seq<Cue>, n: nat)
    requires 0 < n <= |cs| && OneFile(cs, 0)
    ensures OneFile(cs[..n], 0)
  {
    var part := cs[..n];
    forall j | 0 <= j < |part| ensures InFileOf(part, 0, j) { assert InFileOf(cs, 0, j); }
  }

  // ---------- the first track of a file ----------

  /** Its data is that of its index 1, counted from where the file's data begins at its index 0; it
      starts behind the track before, with its own offset and pregap; and the track before ends with
      its file, the last sector being filled up. */
  lemma {:induction false} FirstInFile(cs: seq<Cue>)
    requires |cs| > 1 && Sheet(cs).Loaded? && Plain(cs) && Last(Front(cs)).track.file != Last(cs).track.file
    ensures var t, k, c := Sheet(cs).table.tracks, |cs| - 1, Last(cs);
            t[k].skip == U32(c.data + Bytes(c.track.start - Index0(c), c.track.size))
            && t[k].start == c.track.start + t[k - 1].start + t[k - 1].length + c.pregap
            && Filled(t[k - 1].length, t[k - 1].size, U32(c.previous - t[k - 1].skip))
  {
    hide Accepts, Added, Bytes, Length, U32, Index0, PlainStep, Filled, Sheet, Plain;
    OneCue(cs);
    LastTrack(Front(cs));
    OtherRow(Sheet(Front(cs)).table, Last(cs));
    OtherLength(Sheet(Front(cs)).table, Last(cs));
  }

  lemma {:induction false} OneCue(cs: seq<Cue>)
    requires cs != [] && Sheet(cs).Loaded? && Plain(cs)
    ensures Sheet(Front(cs)).Loaded? && Plain(Front(cs))
    ensures var t, c := Sheet(Front(cs)).table, Last(cs);
            CanClose(t, c) && PlainStep(t, c) && Sheet(cs).table == Added(t, c) && |t.tracks| == |cs| - 1
  {
    hide Accepts, Added, PlainStep;
  }

  /** The first track of a disc. */
  lemma {:induction false} FirstTrack(cs: seq<Cue>)
    requires |cs| == 1 && Sheet(cs).Loaded? && Plain(cs)
    ensures var t, c := Sheet(cs).table.tracks[0], Last(cs);
            t.start == c.track.start + c.pregap
            && t.skip == U32(c.data + Bytes(c.track.start - Index0(c), c.track.size))
  {
    hide Bytes, U32;
    assert Front(cs) == [];
    Unwrapped(Last(cs).track.start + Last(cs).pregap);
  }

  lemma Unwrapped(x: int)
    requires 0 <= x < WRAP
    ensures U32(x) == x
  {
  }

  lemma OtherRow(t: Table, c: Cue)
    requires t.tracks != [] && !Same(t, c) && CanClose(t, c) && PlainStep(t, c)
    ensures var u, n := Added(t, c).tracks, |t.tracks|;
            |u| == n + 1 && u[n - 1] == t.tracks[n - 1].(length := Length(t, c))
            && u[n].skip == U32(c.data + Bytes(c.track.start - Index0(c), c.track.size))
            && u[n].start == c.track.start + u[n - 1].start + u[n - 1].length + c.pregap
  {
    hide Bytes, Length;
  }

  /** The least number of whole sectors that a number of bytes fits in. */
  predicate Filled(sectors: nat, size: nat, bytes: nat) {
    Bytes(sectors, size) >= bytes && (sectors > 0 ==> Bytes(sectors - 1, size) < bytes)
  }

  lemma OtherLength(t: Table, c: Cue)
    requires t.tracks != [] && !Same(t, c) && CanClose(t, c)
    ensures var prev := t.tracks[|t.tracks| - 1];
            Filled(Length(t, c), prev.size, U32(c.previous - prev.skip))
  {
    var prev := t.tracks[|t.tracks| - 1];
    RoundedUp(U32(c.previous - prev.skip), prev.size);
  }

  lemma RoundedUp(bytes: nat, size: nat)
    requires bytes < WRAP && size > 0
    ensures Filled(U32(bytes / size + if bytes % size != 0 then 1 else 0), size, bytes)
  {
    var q := bytes / size;
    DivParts(bytes, size);
    if bytes % size != 0 { Mono(2, size, q); }
    Unwrapped(q + if bytes % size != 0 then 1 else 0);
    Distribute(q, 1, size);
    Distribute(q, -1, size);
  }

  // A file of raw sectors with two tracks, index 0 of the second at sector 1000 and its index 1 at 1150.

  function FirstCue(): Cue { Cue(Track(1, 0, 0, 0, 2352, 1), -1, 0, 0, 0) }
  function SecondCue(): Cue { Cue(Track(2, 1150, 0, 0, 2352, 1), 1000, 0, 0, 0) }

  lemma WithIndex0()
    ensures Sheet([FirstCue(), SecondCue()])
         == Loaded(Table([Track(1, 0, 1000, 0, 2352, 1), Track(2, 1150, 0, 2704800, 2352, 1)], 0, 0))
  {
    hide Accepts, Added;
    var one, two := [FirstCue()], [FirstCue(), SecondCue()];
    assert Front(one) == [] && Front(two) == one;
    FirstAdded();
    SecondAdded();
    assert Sheet(one) == Loaded(AfterFirst());
  }

  function AfterFirst(): Table { Table([Track(1, 0, 0, 0, 2352, 1)], 0, 0) }

  lemma FirstAdded()
    ensures Accepts(Table([], 0, 0), FirstCue()) && Added(Table([], 0, 0), FirstCue()) == AfterFirst()
  {
  }

  lemma SecondAdded()
    ensures CanClose(AfterFirst(), SecondCue()) && Accepts(AfterFirst(), SecondCue())
    ensures Added(AfterFirst(), SecondCue())
         == Table([Track(1, 0, 1000, 0, 2352, 1), Track(2, 1150, 0, 2704800, 2352, 1)], 0, 0)
  {
    var t, c := AfterFirst(), SecondCue();
    assert Length(t, c) == 1000;
    assert Bytes(1000, 2352) == 2352000 && Bytes(150, 2352) == 352800;
  }

  // ---------- which tracks are taken ----------

  /** The tracks of a disc are numbered on from the first one, and there are at most 100. */
  lemma {:induction false} Numbered(cs: seq<Cue>, i: nat)
    requires Sheet(cs).Loaded? && i < |cs|
    ensures |cs| <= 100 && Sheet(cs).table.tracks[i].number == cs[i].track.number == cs[0].track.number + i
    ensures cs[i].prestart <= cs[i].track.start
    decreases |cs|
  {
    hide Accepts, Added, Sheet;
    OneTable(cs);
    var t, c := Sheet(Front(cs)).table, Last(cs);
    AddedNumber(t, c);
    if i < |cs| - 1 {
      AddedKeeps(t, c, i);
      Numbered(Front(cs), i);
    } else if i > 0 {
      Numbered(Front(cs), i - 1);
    }
  }

  lemma AddedNumber(t: Table, c: Cue)
    requires CanClose(t, c) && Accepts(t, c)
    ensures var n := |t.tracks|;
            n < 100 && c.prestart <= c.track.start && |Added(t, c).tracks| == n + 1
            && Added(t, c).tracks[n].number == c.track.number
            && (n > 0 ==> c.track.number == t.tracks[n - 1].number + 1)
  {
    hide Length, Begin, Offset, Bytes, U32;
  }

  /** And no track is refused that is numbered so, has its index 0 at or before its index 1, and does
      not begin before the track above it. */
  lemma {:induction false} Taken(cs: seq<Cue>)
    requires |cs| > 1 && Sheet(Front(cs)).Loaded? && Plain(Front(cs))
    requires var t, c := Sheet(Front(cs)).table, Last(cs);
             CanClose(t, c) && PlainStep(t, c) && c.prestart <= c.track.start
             && (Same(t, c) ==> Index0(c) + Lag(Front(cs)) >= Last(Front(cs)).track.start)
    ensures Sheet(cs).Loaded? <==> |cs| <= 100 && Last(cs).track.number == Last(Front(cs)).track.number + 1 > 1
  {
    hide Accepts, Plain, PlainStep, Lag, Index0;
    LastTrack(Front(cs));
    TakenNext(Sheet(Front(cs)).table, Last(cs));
    Numbered(Front(cs), |cs| - 2);
  }

  lemma TakenNext(t: Table, c: Cue)
    requires t.tracks != [] && CanClose(t, c) && PlainStep(t, c) && c.prestart <= c.track.start
    requires var last := t.tracks[|t.tracks| - 1];
             last.length == 0
             && (Same(t, c) ==> Index0(c) + t.shift + t.pregaps >= last.start)
    ensures Accepts(t, c) <==> |t.tracks| < 100 && c.track.number == t.tracks[|t.tracks| - 1].number + 1 > 1
  {
    if !Same(t, c) { hide Length; }
  }
}
