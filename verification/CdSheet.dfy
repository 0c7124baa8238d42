/** Whole cue sheets: the table that `add_track` builds from one, and which sheets it lays out right. */
module CdSheet {
  import opened Numbers
  import opened CdTracks

  datatype Load = Refused | Loaded(table: Table)

  /** The last cue of a sheet and the sheet before it. */
  function Last(cs: seq<Cue>): Cue
    requires cs != []
  {
    cs[|cs| - 1]
  }

  function Front(cs: seq<Cue>): seq<Cue>
    requires cs != []
  {
    cs[..|cs| - 1]
  }

  /** Track after track, until one is refused. */
  function Sheet(cs: seq<Cue>): (l: Load)
    ensures l.Loaded? ==> |l.table.tracks| == |cs|
  {
    if cs == [] then Loaded(Table([], 0, 0))
    else
      var l := Sheet(Front(cs));
      if l.Loaded? && CanClose(l.table, Last(cs)) && Accepts(l.table, Last(cs)) then Loaded(Added(l.table, Last(cs)))
      else Refused
  }

  /** The length of the last track can be computed. */
  predicate CanClose(t: Table, c: Cue) {
    t.tracks != [] && !Same(t, c) ==> t.tracks[|t.tracks| - 1].size > 0
  }

  /** Where index 0 of a track is, or index 1 if it has none. */
  function Index0(c: Cue): int { c.track.start - Skip(c) }

  /** As cue sheets are: no lengths, and sums that 32 bits can hold. */
  predicate Plain(cs: seq<Cue>)
    requires Sheet(cs).Loaded?
    decreases |cs|
  {
    cs == [] || (Sheet(Front(cs)).Loaded? && Plain(Front(cs)) && PlainStep(Sheet(Front(cs)).table, Last(cs)))
  }

  predicate PlainStep(t: Table, c: Cue)
    requires CanClose(t, c)
  {
    c.track.length == 0 && c.track.start + c.pregap < WRAP
    && (t.tracks != [] ==>
          var prev := t.tracks[|t.tracks| - 1];
          if Same(t, c) then c.track.start + t.shift + t.pregaps + c.pregap < WRAP
          else c.track.start + prev.start + Length(t, c) + c.pregap < WRAP
               && t.shift + prev.start + Length(t, c) < WRAP)
  }

  /** How far the first track of a file lies before the place that the later ones are counted from:
      the shift as it was before. */
  function Lag(cs: seq<Cue>): nat
    requires cs != [] && Sheet(cs).Loaded?
  {
    if |cs| == 1 || cs[|cs| - 2].track.file == Last(cs).track.file then 0 else Sheet(Front(cs)).table.shift
  }

  /** What the table knows of its last track. */
  lemma {:induction false} LastTrack(cs: seq<Cue>)
    requires cs != [] && Sheet(cs).Loaded? && Plain(cs)
    ensures var t, c := Sheet(cs).table, Last(cs); var last := t.tracks[|t.tracks| - 1];
            last.file == c.track.file && last.length == 0 && last.size == c.track.size
            && last.start + Lag(cs) == c.track.start + t.shift + t.pregaps && last.start < WRAP
  {
    hide Accepts, Offset;
    if |cs| == 1 {
      assert Front(cs) == [];
    } else {
      LastTrack(Front(cs));
      OneMore(Sheet(Front(cs)).table, Last(cs));
    }
  }

  lemma OneMore(t: Table, c: Cue)
    requires t.tracks != [] && CanClose(t, c) && PlainStep(t, c)
    ensures var u := Added(t, c); var last := u.tracks[|t.tracks|];
            |u.tracks| == |t.tracks| + 1
            && last.file == c.track.file && last.length == 0 && last.size == c.track.size
            && last.start + (if Same(t, c) then 0 else t.shift) == c.track.start + u.shift + u.pregaps
            && last.start < WRAP
  {
    hide Accepts, Offset, Length;
  }

  /** Track `i` does not begin before the track that it closes. */
  predicate Follows(cs: seq<Cue>, i: nat)
    requires 1 <= i < |cs| && Sheet(cs[..i]).Loaded?
  {
    cs[i].track.file == cs[i - 1].track.file ==> Index0(cs[i]) + Lag(cs[..i]) >= cs[i - 1].track.start
  }

  lemma {:induction false} Prefix(cs: seq<Cue>, i: nat)
    requires Sheet(cs).Loaded? && i <= |cs|
    ensures Sheet(cs[..i]).Loaded?
  {
    if i == |cs| {
      assert cs[..i] == cs;
    } else {
      Prefix(Front(cs), i);
      assert Front(cs)[..i] == cs[..i];
    }
  }

  predicate InOrder(cs: seq<Cue>)
    requires Sheet(cs).Loaded?
  {
    forall i :: 1 <= i < |cs| ==> (Prefix(cs, i); Follows(cs, i))
  }

  lemma {:induction false} PrefixPlain(cs: seq<Cue>, i: nat)
    requires Sheet(cs).Loaded? && i <= |cs| && Plain(cs)
    ensures Sheet(cs[..i]).Loaded? && Plain(cs[..i])
  {
    hide Accepts, PlainStep;
    if i == |cs| {
      assert cs[..i] == cs;
    } else {
      PrefixPlain(Front(cs), i);
      assert Front(cs)[..i] == cs[..i];
    }
  }

  // ---------- sheets that go forwards ----------

  /** One more track keeps a table straight exactly if it does not begin before the one it closes, or
      is of another file; and no track puts a table straight. */
  lemma StepStraight(t: Table, c: Cue)
    requires t.tracks != [] && CanClose(t, c) && Accepts(t, c) && PlainStep(t, c)
    requires var last := t.tracks[|t.tracks| - 1]; last.length == 0 && last.start < WRAP
    ensures Straight(Added(t, c).tracks)
       <==> Straight(t.tracks) && (Same(t, c) ==> Index0(c) + t.shift + t.pregaps >= t.tracks[|t.tracks| - 1].start)
  {
    hide Accepts, Straight, Length, Begin, Offset;
    if Straight(t.tracks) {
      if Same(t, c) { SameFile(t, c); } else { OtherFile(t, c); }
    } else {
      NotStraight(t, c);
    }
  }

  lemma NotStraight(t: Table, c: Cue)
    requires t.tracks != [] && CanClose(t, c) && !Straight(t.tracks)
    requires var last := t.tracks[|t.tracks| - 1]; last.length == 0 && last.start < WRAP
    ensures !Straight(Added(t, c).tracks)
  {
    hide Length, Begin, Offset;
    var u, v, n := t.tracks, Added(t, c).tracks, |t.tracks|;
    assert forall i :: 0 <= i < n - 1 ==> v[i] == u[i];
    assert v[n - 1].start == u[n - 1].start;
    if i :| 0 <= i < n && u[i].start + u[i].length >= WRAP {
      assert v[i].start + v[i].length >= WRAP;
    } else {
      var i :| 0 < i < n && u[i - 1].start + u[i - 1].length > u[i].start;
      assert v[i - 1].start + v[i - 1].length > v[i].start;
    }
  }

  /** The table of a sheet goes forwards exactly if, in each file, no track's index 0 lies before the
      index 1 of the track above it, given what the first track of the file lags behind. */
  lemma {:induction false} SheetStraight(cs: seq<Cue>)
    requires Sheet(cs).Loaded? && Plain(cs)
    ensures Straight(Sheet(cs).table.tracks) <==> InOrder(cs)
  {
    hide Accepts, Follows, Straight, PlainStep, Index0;
    if |cs| <= 1 {
      OneStraight(cs);
    } else {
      var front, t := Front(cs), Sheet(Front(cs)).table;
      SheetStraight(front);
      LastTrack(front);
      StepStraight(t, Last(cs));
      FollowsIs(cs);
      InOrderMore(cs);
    }
  }

  lemma OneStraight(cs: seq<Cue>)
    requires Sheet(cs).Loaded? && Plain(cs) && |cs| <= 1
    ensures Straight(Sheet(cs).table.tracks)
  {
    hide Accepts, Offset;
    if cs != [] { LastTrack(cs); }
  }

  lemma FollowsIs(cs: seq<Cue>)
    requires |cs| > 1 && Sheet(cs).Loaded? && Plain(cs)
    ensures var i, t := |cs| - 1, Sheet(Front(cs)).table;
            Sheet(cs[..i]).Loaded? && t.tracks != []
            && (Follows(cs, i) <==>
                  (Same(t, Last(cs)) ==> Index0(Last(cs)) + t.shift + t.pregaps >= t.tracks[|t.tracks| - 1].start))
  {
    hide Accepts, PlainStep, Index0;
    LastTrack(Front(cs));
  }

  lemma InOrderMore(cs: seq<Cue>)
    requires |cs| > 1 && Sheet(cs).Loaded?
    ensures Sheet(Front(cs)).Loaded? && (InOrder(cs) <==> InOrder(Front(cs)) && Follows(cs, |cs| - 1))
  {
    hide Accepts, Follows, Sheet;
    Prefix(cs, |cs| - 1);
    forall i | 1 <= i < |cs| - 1
      ensures Sheet(cs[..i]).Loaded? && Front(cs)[..i] == cs[..i] && (Follows(cs, i) <==> Follows(Front(cs), i))
    {
      Prefix(cs, i);
      Prefix(Front(cs), i);
      SameFollows(cs, i);
    }
  }

  lemma SameFollows(cs: seq<Cue>, i: nat)
    requires 1 <= i < |cs| - 1 && Sheet(cs[..i]).Loaded? && Sheet(Front(cs)[..i]).Loaded?
    ensures Follows(cs, i) <==> Follows(Front(cs), i)
  {
    hide Sheet, Lag;
    assert Front(cs)[..i] == cs[..i];
  }

  // ---------- the length and the place that a track gets ----------

  /** A track that is closed by one of its own file gets as its length what lies between them in the
      file, and what it lags behind besides. */
  lemma LengthGiven(cs: seq<Cue>)
    requires |cs| > 1 && Sheet(cs).Loaded? && Plain(cs) && Follows(cs, |cs| - 1)
    requires Last(Front(cs)).track.file == Last(cs).track.file
    ensures Sheet(cs).table.tracks[|cs| - 2].length
            == Index0(Last(cs)) - Last(Front(cs)).track.start + Lag(Front(cs))
  {
    hide Accepts, Added, Follows, Index0;
    LastTrack(Front(cs));
    FollowsIs(cs);
    ClosedBy(Sheet(Front(cs)).table, Last(cs));
  }

  lemma ClosedBy(t: Table, c: Cue)
    requires t.tracks != [] && CanClose(t, c) && Same(t, c) && Accepts(t, c) && PlainStep(t, c)
    requires var last := t.tracks[|t.tracks| - 1]; last.length == 0 && Index0(c) + t.shift + t.pregaps >= last.start
    ensures Added(t, c).tracks[|t.tracks| - 1].length
            == Index0(c) + t.shift + t.pregaps - t.tracks[|t.tracks| - 1].start
  {
    hide Begin, Offset, End;
  }

  /** So the length is right exactly if there is no lag: for every track but the first of a third
      or later file. */
  lemma LagOnlyAfterTwo(cs: seq<Cue>)
    requires cs != [] && Sheet(cs).Loaded?
    ensures (forall i :: 0 <= i < |cs| - 1 ==> cs[i].track.file == cs[0].track.file) ==> Lag(cs) == 0
    ensures |cs| > 1 && Last(Front(cs)).track.file == Last(cs).track.file ==> Lag(cs) == 0
  {
    hide Accepts, Added;
    if |cs| > 1 && forall i :: 0 <= i < |cs| - 1 ==> cs[i].track.file == cs[0].track.file { NoShift(Front(cs)); }
  }

  lemma {:induction false} NoShift(cs: seq<Cue>)
    requires cs != [] && Sheet(cs).Loaded? && forall i :: 0 <= i < |cs| ==> cs[i].track.file == cs[0].track.file
    ensures Sheet(cs).table.shift == 0 && Sheet(cs).table.tracks[|cs| - 1].file == cs[0].track.file
  {
    hide Accepts, Offset, Begin, Length;
    if |cs| == 1 {
      assert Front(cs) == [];
    } else {
      NoShift(Front(cs));
    }
  }

  // Three files of a hundred sectors, the third with two tracks.

  function FileCue(number: nat, start: nat, file: nat): Cue {
    Cue(Track(number, start, 0, 0, 2048, file), -1, 0, 0, 204800)
  }

  function ThreeFiles(n: nat): (cs: seq<Cue>)
    requires 1 <= n <= 4
    ensures |cs| == n
  {
    if n == 1 then [FileCue(1, 0, 1)] else ThreeFiles(n - 1) + [if n == 4 then FileCue(4, 50, 3) else FileCue(n, 0, n)]
  }

  function ThreeFilesTable(n: nat): Table
    requires 1 <= n <= 4
  {
    var a, b, c := Track(1, 0, 100, 0, 2048, 1), Track(2, 100, 100, 0, 2048, 2), Track(3, 200, 0, 0, 2048, 3);
    if n == 1 then Table([a.(length := 0)], 0, 0)
    else if n == 2 then Table([a, b.(length := 0)], 100, 0)
    else if n == 3 then Table([a, b, c], 300, 0)
    else Table([a, b, c.(length := 150), Track(4, 350, 0, 150 * 2048, 2048, 3)], 300, 0)
  }

  lemma {:induction false} ThreeFilesBuilt(n: nat)
    requires 1 <= n <= 4
    ensures Sheet(ThreeFiles(n)) == Loaded(ThreeFilesTable(n))
  {
    hide Accepts, Added;
    if n == 1 {
      AddFirst();
      assert Front(ThreeFiles(1)) == [];
    } else {
      ThreeFilesBuilt(n - 1);
      AddNext(n);
      assert Front(ThreeFiles(n)) == ThreeFiles(n - 1);
    }
  }

  lemma AddFirst()
    ensures Accepts(Table([], 0, 0), FileCue(1, 0, 1)) && Added(Table([], 0, 0), FileCue(1, 0, 1)) == ThreeFilesTable(1)
  {
  }

  lemma AddNext(n: nat)
    requires 2 <= n <= 4
    ensures var c, t := if n == 4 then FileCue(4, 50, 3) else FileCue(n, 0, n), ThreeFilesTable(n - 1);
            CanClose(t, c) && Accepts(t, c) && Added(t, c) == ThreeFilesTable(n)
  {
  }

  /** The fourth track begins fifty sectors into its file; the table puts it a hundred further on, on
      the disc and in the file. */
  lemma ThirdFileShifted()
    ensures Sheet(ThreeFiles(4)).Loaded? && Last(ThreeFiles(4)).track.start == 50
    ensures var t := Sheet(ThreeFiles(4)).table.tracks;
            t[2].start == 200 && t[2].length == 150 && t[3].start == 350 && t[3].skip == 150 * 2048
  {
    ThreeFilesBuilt(4);
  }
}
