/** Fitting any set of sectors into a track: how long the gaps, the synchronising zeros and the
    runs of marks may be. */
module FloppyGaps {
  import opened Numbers
  import opened BitOps
  import opened FloppyLayout
  import FloppySearch

  /** A sector to be laid out: with a data field of the size that a code stands for, or without one. */
  datatype Sector = NoData | Data(code: Byte)

  function DataSize(s: Sector): nat {
    match s
    case NoData => 0
    case Data(code) => FloppySearch.SizeOf(code)
  }

  /** What a sector takes at least, but for five bytes: one mark, the address field and, if there
      is one, a mark, the data and its checksum. */
  function Least(s: Sector): nat {
    if s.NoData? then 8 else 12 + DataSize(s)
  }

  function LeastAll(sectors: seq<Sector>): nat {
    if sectors == [] then 0 else LeastAll(sectors[..|sectors| - 1]) + Least(sectors[|sectors| - 1])
  }

  datatype Gaps = Gaps(first: nat, second: nat, third: nat, synchro: nat, pulse: nat)

  datatype Plan = Impossible | Planned(gaps: Gaps)

  // ---------- what is written ----------

  function SectorLength(g: Gaps, s: Sector): nat {
    g.first + g.synchro + g.pulse + 7 + g.second + g.synchro
    + (if s.NoData? then 0 else g.pulse + 1 + DataSize(s) + 2) + g.third
  }

  /** With the widest gaps and three marks, a sector of 256 bytes is laid out as formatting does it. */
  lemma AsFormatted()
    ensures SectorLength(Gaps(10, 22, 60, 12, 3), Data(1)) == SECTOR
    ensures forall g: Gaps :: g.pulse == 3 ==>
              SectorLength(g, NoData) == g.first + g.synchro + 3 + 7 + g.second + g.synchro + g.third
  {
    assert FloppySearch.SizeOf(1) == 256;
  }

  function TrackLength(g: Gaps, sectors: seq<Sector>): nat {
    if sectors == [] then 0 else TrackLength(g, sectors[..|sectors| - 1]) + SectorLength(g, sectors[|sectors| - 1])
  }

  function WithData(sectors: seq<Sector>): (d: nat)
    ensures d <= |sectors|
  {
    if sectors == [] then 0 else WithData(sectors[..|sectors| - 1]) + if sectors[|sectors| - 1].NoData? then 0 else 1
  }

  /** The length of a track: the least, the gaps, and every mark beyond the first. */
  lemma {:induction false} LengthIs(g: Gaps, sectors: seq<Sector>)
    requires 1 <= g.pulse <= 3
    ensures TrackLength(g, sectors) == LeastAll(sectors) + 5 * |sectors|
                                       + Times(|sectors|, Given(g.first, g.second, g.third, g.synchro))
                                       + Extra(g.pulse, |sectors| + WithData(sectors))
  {
    hide DataSize, Times;
    TimesNone(Given(g.first, g.second, g.third, g.synchro));
    if sectors == [] {
    } else {
      LengthIs(g, sectors[..|sectors| - 1]);
      OneMore(|sectors|, Given(g.first, g.second, g.third, g.synchro));
    }
  }

  function Times(n: nat, g: int): int { n * g }

  /** What marks beyond the first take, in `runs` runs. */
  function Extra(pulse: nat, runs: nat): nat {
    if pulse <= 1 then 0 else if pulse == 2 then runs else 2 * runs
  }

  lemma TimesNone(g: int)
    ensures Times(0, g) == 0
  {
  }

  lemma OneMore(n: nat, g: int)
    requires n > 0
    ensures Times(n, g) == Times(n - 1, g) + g
  {
  }

  /** What a set of sectors needs. */
  function Needed(sectors: seq<Sector>): nat {
    LeastAll(sectors) + 5 * |sectors|
  }

  /** Data comes in units of 128 bytes. */
  function UnitsOf(s: Sector): nat {
    match s
    case NoData => 0
    case Data(code) => if code < 25 then Shl(1, code) else 0
  }

  function Units(sectors: seq<Sector>): nat {
    if sectors == [] then 0 else Units(sectors[..|sectors| - 1]) + UnitsOf(sectors[|sectors| - 1])
  }

  /** Each code stands for twice the size of the one before, from 128 bytes on and in 32 bits. */
  lemma SizeDoubles(code: Byte)
    ensures FloppySearch.SizeOf(0) == 128
    ensures code < 255 ==> FloppySearch.SizeOf(code + 1) == 2 * FloppySearch.SizeOf(code) % WRAP
  {
    FloppySearch.LargestSize();
    if code < 24 { FloppySearch.SizeFits(code + 1); }
  }

  /** Every data field has data in it: its size code is one that 32 bits can hold. */
  predicate NoneEmpty(sectors: seq<Sector>) {
    forall i :: 0 <= i < |sectors| ==> sectors[i].Data? ==> sectors[i].code < 25
  }

  lemma {:induction false} LeastIs(sectors: seq<Sector>)
    ensures LeastAll(sectors) == 8 * |sectors| + 4 * WithData(sectors) + 128 * Units(sectors)
    ensures NoneEmpty(sectors) ==> Units(sectors) >= WithData(sectors)
  {
    hide UnitsOf, DataSize;
    if sectors == [] {
    } else {
      LeastIs(sectors[..|sectors| - 1]);
      Unit(sectors[|sectors| - 1]);
    }
  }

  lemma Unit(s: Sector)
    ensures DataSize(s) == 128 * UnitsOf(s)
    ensures s.Data? && s.code < 25 ==> UnitsOf(s) >= 1
    ensures s.NoData? ==> UnitsOf(s) == 0
  {
    if s.Data? { ShlUnit(s.code); }
  }

  lemma {:induction false} ShlUnit(code: nat)
    ensures Shl(128, code) == 128 * Shl(1, code) && Shl(1, code) >= 1
  {
    if code == 0 {
    } else {
      ShlUnit(code - 1);
    }
  }

  // ---------- the distribution ----------

  /** What the gaps take of a sector beyond one byte each. */
  function Given(first: nat, second: nat, third: nat, synchro: nat): int {
    first + second + third + 2 * synchro - 5
  }

  /** The gaps grow in rounds, each by one byte until it is full: first the zeros, where there is room
      for both of theirs, then the first gap, the second and the third.  The third gap counts the rounds
      that are over; where the zeros have been passed over, one gap has grown at most since. */
  predicate Together(first: nat, second: nat, third: nat, synchro: nat) {
    (synchro == Min(third, 12) || synchro == Min(third + 1, 12))
    && (first == Min(third, 10) || first == Min(third + 1, 10))
    && (second == Min(third, 22) || (second == Min(third + 1, 22) && first == Min(third + 1, 10)))
    && (synchro == Min(third + 1, 12) || first == Min(third, 10) || second == Min(third, 22))
  }

  /** The loop has stopped: nothing is lost, the gaps have grown together, and none could still grow. */
  predicate Handed(n: nat, free0: nat, first: nat, second: nat, third: nat, synchro: nat, free: nat) {
    1 <= first <= 10 && 1 <= second <= 22 && 1 <= third <= 60 && 1 <= synchro <= 12
    && free + Times(n, Given(first, second, third, synchro)) == free0
    && (free < n || (first == 10 && second == 22 && third == 60 && synchro == 12))
    && Together(first, second, third, synchro)
  }

  /** So the gaps are determined by how many sectors there are and how much space there is. */
  lemma OneWay(n: nat, free0: nat, g: Gaps, left: nat, h: Gaps, rest: nat)
    requires Handed(n, free0, g.first, g.second, g.third, g.synchro, left)
    requires Handed(n, free0, h.first, h.second, h.third, h.synchro, rest)
    ensures left == rest && g.(pulse := 1) == h.(pulse := 1)
  {
    hide Times, Together;
    var a, b := Given(g.first, g.second, g.third, g.synchro), Given(h.first, h.second, h.third, h.synchro);
    AllGiven(g);
    AllGiven(h);
    if a < b { Apart(n, a, b); }
    if b < a { Apart(n, b, a); }
    if a == b { SameGiven(g, h); }
  }

  lemma Apart(n: nat, a: int, b: int)
    requires a < b
    ensures Times(n, b) >= Times(n, a) + n
  {
    assert n * (b - a - 1) >= 0;
  }

  /** No gaps take more than the full ones. */
  lemma AllGiven(g: Gaps)
    requires g.first <= 10 && g.second <= 22 && g.third <= 60 && g.synchro <= 12
    ensures Given(g.first, g.second, g.third, g.synchro) <= 111
    ensures Given(g.first, g.second, g.third, g.synchro) == 111 ==>
              g.first == 10 && g.second == 22 && g.third == 60 && g.synchro == 12
  {
  }

  lemma SameGiven(g: Gaps, h: Gaps)
    requires g.third <= 60 && h.third <= 60
    requires Together(g.first, g.second, g.third, g.synchro) && Together(h.first, h.second, h.third, h.synchro)
    requires Given(g.first, g.second, g.third, g.synchro) == Given(h.first, h.second, h.third, h.synchro)
    ensures g.(pulse := 1) == h.(pulse := 1)
  {
  }

  lemma Grown(n: nat, g: int)
    ensures Times(n, g + 1) == Times(n, g) + n && Times(n, g + 2) == Times(n, g) + 2 * n && Times(n, 0) == 0
  {
  }

  /** The loop of `readFDI` that hands out the free space. */
  method HandOut(n: nat, free0: nat) returns (first: nat, second: nat, third: nat, synchro: nat, free: nat)
    requires free0 > 0 || n > 0
    ensures Handed(n, free0, first, second, third, synchro, free)
  {
    hide Times;
    free, first, second, third, synchro := free0, 1, 1, 1, 1;
    Grown(n, 0);
    while free > 0
      invariant 1 <= third <= 60 && first == Min(third, 10) && second == Min(third, 22) && synchro == Min(third, 12)
      invariant free + Times(n, Given(first, second, third, synchro)) == free0
      decreases 60 - third
    {
      Grown(n, Given(first, second, third, synchro));
      if free >= n * 2 {
        if synchro < 12 { synchro := synchro + 1; free := free - n * 2; }
      }
      if free < n { break; }
      Grown(n, Given(first, second, third, synchro));
      if first < 10 { first := first + 1; free := free - n; }
      if free < n { break; }
      Grown(n, Given(first, second, third, synchro));
      if second < 22 { second := second + 1; free := free - n; }
      if free < n { break; }
      Grown(n, Given(first, second, third, synchro));
      if third < 60 { third := third + 1; free := free - n; }
      if free < n { break; }
      if synchro >= 12 && first >= 10 && second >= 22 && third >= 60 { break; }
    }
    TimesNone(Given(first, second, third, synchro));
  }

  /** What is left to hand out, less four bytes, in 32 bits. */
  function FreeOf(needed: nat): nat
    requires needed <= TRACK
  {
    (TRACK - needed + WRAP - 4) % WRAP
  }

  lemma Subtracted(needed: nat)
    requires needed <= TRACK
    ensures if needed + 4 <= TRACK then FreeOf(needed) == TRACK - 4 - needed else FreeOf(needed) >= WRAP - 4
  {
  }

  /** What the marks are: one, and more where there is room. */
  predicate Marks(n: nat, left: nat, pulse: nat) {
    pulse == 1 + (if left > 2 * n + 10 then 1 else 0)
               + (if left > (if left > 2 * n + 10 then 3 * n + 9 else 2 * n + 9) then 1 else 0)
  }

  /** A plan that the program can come to: what is needed is summed up in 32 bits. */
  ghost predicate PlanFor(sectors: seq<Sector>, g: Gaps) {
    Needed(sectors) % WRAP <= TRACK
    && exists left: nat ::
         Handed(|sectors|, FreeOf(Needed(sectors) % WRAP), g.first, g.second, g.third, g.synchro, left)
         && Marks(|sectors|, left, g.pulse)
  }

  /** Three marks in every run are given, and two or four too many. */
  predicate Crowded(n: nat, needed: nat, d: nat) {
    needed + 114 * n + 14 <= TRACK < needed + 113 * n + 2 * d
  }

  /** The track comes out at 6250 bytes or less unless the four bytes set aside were not there, or
      there are too many empty data fields. */
  lemma Fits(sectors: seq<Sector>, g: Gaps)
    requires PlanFor(sectors, g)
    ensures TrackLength(g, sectors) <= TRACK
       <==> sectors == [] || (Needed(sectors) + 4 <= TRACK && !Crowded(|sectors|, Needed(sectors), WithData(sectors)))
  {
    hide LeastAll, TrackLength, WithData, Units, Times, FreeOf;
    var n, d, needed := |sectors|, WithData(sectors), Needed(sectors);
    LengthIs(g, sectors);
    LeastIs(sectors);
    AtMost(n, Given(g.first, g.second, g.third, g.synchro));
    if n == 0 {
      NoSectors(sectors);
      SmallMod(needed);
    } else if needed + 4 <= TRACK {
      SmallMod(needed);
      Subtracted(needed);
      var left: nat :| Handed(n, FreeOf(needed), g.first, g.second, g.third, g.synchro, left)
                       && Marks(n, left, g.pulse);
      Roomy(n, d, needed, left, g);
    } else if needed <= TRACK {
      Wrapped(sectors, g);
    }
  }

  lemma SmallMod(needed: nat)
    ensures needed < WRAP ==> needed % WRAP == needed
  {
  }

  /** Where the four bytes were there, only the marks can be too many. */
  lemma Roomy(n: nat, d: nat, needed: nat, left: nat, g: Gaps)
    requires 0 < n && d <= n && needed + 4 <= TRACK && FreeOf(needed) == TRACK - 4 - needed
    requires Handed(n, FreeOf(needed), g.first, g.second, g.third, g.synchro, left) && Marks(n, left, g.pulse)
    ensures var length := needed + Times(n, Given(g.first, g.second, g.third, g.synchro)) + Extra(g.pulse, n + d);
            (length <= TRACK <==> !Crowded(n, needed, d)) && length <= TRACK + n
  {
    hide Times, FreeOf;
    AtMost(n, Given(g.first, g.second, g.third, g.synchro));
  }

  /** Data in every data field makes up for the marks. */
  lemma NotCrowded(sectors: seq<Sector>)
    requires NoneEmpty(sectors)
    ensures !Crowded(|sectors|, Needed(sectors), WithData(sectors))
  {
    hide LeastAll, WithData, Units, NoneEmpty;
    LeastIs(sectors);
    Enough(|sectors|, WithData(sectors), Units(sectors));
  }

  /** For three marks in every run the test alone leaves too little; that data comes in units of 128
      bytes, with one at least in each data field, makes up for it. */
  lemma Enough(n: nat, d: nat, m: nat)
    requires d <= n && d <= m
    ensures !Crowded(n, 13 * n + 4 * d + 128 * m, d)
  {
    var left := TRACK - 4 - (124 * n + 4 * d + 128 * m);
    assert left == 102 + 4 * n - 4 * d + 128 * (48 - n - m);
    if left >= 3 * n + 10 {
      if n + m >= 49 {
        assert n >= 4 * d + 36;
      } else {
        assert n + d <= 48;
      }
    }
  }

  /** Once the subtraction has wrapped, everything gets all that it can have. */
  lemma Wrapped(sectors: seq<Sector>, g: Gaps)
    requires PlanFor(sectors, g) && TRACK - 4 < Needed(sectors) <= TRACK
    ensures g == Gaps(10, 22, 60, 12, 3)
    ensures TrackLength(g, sectors) == Needed(sectors) + 113 * |sectors| + 2 * WithData(sectors)
    ensures |sectors| > 0
  {
    hide LeastAll, TrackLength, WithData, Units, Times, FreeOf;
    var n, needed := |sectors|, Needed(sectors);
    LengthIs(g, sectors);
    LeastIs(sectors);
    SmallMod(needed);
    AtMost(n, Given(g.first, g.second, g.third, g.synchro));
    Subtracted(needed);
    if n == 0 { NoSectors(sectors); }
    var left: nat :| Handed(n, FreeOf(needed), g.first, g.second, g.third, g.synchro, left) && Marks(n, left, g.pulse);
  }

  /** What becomes of the buffers, which hold 1024 bytes more than a track: a track stays inside
      them unless the four bytes were not there and the widest gaps are too much. */
  lemma FitsBuffer(sectors: seq<Sector>, g: Gaps)
    requires PlanFor(sectors, g)
    ensures var needed := Needed(sectors);
            TrackLength(g, sectors) <= TRACK + 1024
            <==> needed + 4 <= TRACK || needed + 113 * |sectors| + 2 * WithData(sectors) <= TRACK + 1024
  {
    hide LeastAll, TrackLength, WithData, Units, Times, FreeOf;
    var n, d, needed := |sectors|, WithData(sectors), Needed(sectors);
    LengthIs(g, sectors);
    LeastIs(sectors);
    AtMost(n, Given(g.first, g.second, g.third, g.synchro));
    SmallMod(needed);
    if n == 0 {
      NoSectors(sectors);
    } else if needed + 4 <= TRACK {
      Subtracted(needed);
      var left: nat :| Handed(n, FreeOf(needed), g.first, g.second, g.third, g.synchro, left)
                       && Marks(n, left, g.pulse);
      Roomy(n, d, needed, left, g);
    } else if needed <= TRACK {
      Wrapped(sectors, g);
    } else {
      assert needed >= WRAP;
    }
  }

  /** Seven sectors, three of them of 2048 bytes: they need 6247 bytes and are made 7044. */
  lemma TooLong(g: Gaps)
    ensures var sectors := Several(3, Data(4)) + Several(4, NoData);
            Needed(sectors) == TRACK - 3
            && (PlanFor(sectors, g) ==> TRACK < TrackLength(g, sectors) == 7044 <= TRACK + 1024)
  {
    hide TrackLength, LeastAll, WithData, PlanFor;
    var sectors := Several(3, Data(4)) + Several(4, NoData);
    SeveralMore([], 3, Data(4));
    SeveralMore(Several(3, Data(4)), 4, NoData);
    NoSectors([]);
    if PlanFor(sectors, g) { Wrapped(sectors, g); }
  }

  /** Thirty sectors, eighteen of 128 bytes and twelve of a code that leaves nothing: they need 2814
      bytes and are made 6264. */
  lemma TooManyMarks(g: Gaps)
    ensures var sectors := Several(18, Data(0)) + Several(12, Data(25));
            Needed(sectors) == 2814 && (PlanFor(sectors, g) ==> TRACK < TrackLength(g, sectors))
  {
    hide TrackLength, LeastAll, WithData, PlanFor;
    var sectors := Several(18, Data(0)) + Several(12, Data(25));
    SeveralMore([], 18, Data(0));
    SeveralMore(Several(18, Data(0)), 12, Data(25));
    NoSectors([]);
    if PlanFor(sectors, g) { Fits(sectors, g); }
  }

  /** Two sectors of a code for 2^31 bytes: what they need comes out as 34 bytes in 32 bits. */
  lemma SumWraps(g: Gaps)
    ensures var sectors := Several(2, Data(24));
            Needed(sectors) % WRAP == 34 && (PlanFor(sectors, g) ==> TrackLength(g, sectors) > TRACK + 1024)
  {
    hide TrackLength, LeastAll, WithData, PlanFor;
    FloppySearch.LargestSize();
    SeveralMore([], 2, Data(24));
    NoSectors([]);
    if PlanFor(Several(2, Data(24)), g) { FitsBuffer(Several(2, Data(24)), g); }
  }

  /** Fifteen sectors: two of 2048 bytes, one each of 1024 and 256, five of 128 and six without
      data.  They need 6247 bytes and are made 7960. */
  lemma BeyondBuffer(g: Gaps)
    ensures var sectors := Fifteen();
            Needed(sectors) == TRACK - 3
            && (PlanFor(sectors, g) ==> TRACK + 1024 < TrackLength(g, sectors) == 7960)
  {
    hide TrackLength, LeastAll, WithData, PlanFor;
    var s1 := Several(2, Data(4));
    var s2 := s1 + Several(1, Data(3));
    var s3 := s2 + Several(1, Data(1));
    var s4 := s3 + Several(5, Data(0));
    SeveralMore([], 2, Data(4));
    SeveralMore(s1, 1, Data(3));
    SeveralMore(s2, 1, Data(1));
    SeveralMore(s3, 5, Data(0));
    SeveralMore(s4, 6, NoData);
    NoSectors([]);
    if PlanFor(Fifteen(), g) { Wrapped(Fifteen(), g); }
  }

  function Fifteen(): seq<Sector> {
    Several(2, Data(4)) + Several(1, Data(3)) + Several(1, Data(1)) + Several(5, Data(0)) + Several(6, NoData)
  }

  function Several(k: nat, s: Sector): (r: seq<Sector>)
    ensures |r| == k
  {
    seq(k, _ => s)
  }

  lemma {:induction false} SeveralMore(before: seq<Sector>, k: nat, s: Sector)
    ensures LeastAll(before + Several(k, s)) == LeastAll(before) + Times(k, Least(s))
    ensures WithData(before + Several(k, s)) == WithData(before) + if s.NoData? then 0 else k
    ensures [] + Several(k, s) == Several(k, s)
  {
    hide LeastAll, WithData, Times, Least;
    var all := before + Several(k, s);
    TimesNone(Least(s));
    if k == 0 {
      assert all == before;
    } else {
      SeveralMore(before, k - 1, s);
      assert all == before + Several(k - 1, s) + [s];
      OneSector(before + Several(k - 1, s), s);
      OneMore(k, Least(s));
    }
  }

  lemma OneSector(before: seq<Sector>, s: Sector)
    ensures LeastAll(before + [s]) == LeastAll(before) + Least(s)
    ensures WithData(before + [s]) == WithData(before) + if s.NoData? then 0 else 1
  {
    hide Least;
    assert (before + [s])[..|before|] == before;
  }

  lemma NoSectors(sectors: seq<Sector>)
    requires |sectors| == 0
    ensures LeastAll(sectors) == 0 && WithData(sectors) == 0
  {
  }

  lemma AtMost(n: nat, g: int)
    requires 0 <= g <= 111
    ensures 0 <= Times(n, g) <= 111 * n && (g == 111 ==> Times(n, g) == 111 * n)
  {
  }

  /** All of it: the test, the subtraction in 32 bits, the loop, and one or two more marks if
      there is room. */
  method Distribute(sectors: seq<Sector>) returns (p: Plan)
    ensures p.Impossible? <==> Needed(sectors) % WRAP > TRACK
    ensures p.Planned? ==> PlanFor(sectors, p.gaps)
  {
    hide DataSize;
    var n, least := |sectors|, 0;
    for i := 0 to n
      invariant least == LeastAll(sectors[..i]) % WRAP
    {
      assert sectors[..i + 1][..i] == sectors[..i];
      SumInWords(LeastAll(sectors[..i]), Least(sectors[i]));
      least := (least + Least(sectors[i])) % WRAP;
    }
    assert sectors[..n] == sectors;
    SumInWords(LeastAll(sectors), 5 * n);
    var needed := (least + n * 5) % WRAP;
    if needed > TRACK { return Impossible; }
    var free0 := FreeOf(needed);
    var first, second, third, synchro, free := HandOut(n, free0);
    ghost var left := free;
    var pulse := 1;
    if free > n * 2 + 10 { pulse := pulse + 1; free := free - n; }
    if free > n * 2 + 9 { pulse := pulse + 1; }
    p := Planned(Gaps(first, second, third, synchro, pulse));
    assert Marks(n, left, pulse);
  }

  lemma SumInWords(a: nat, b: nat)
    ensures (a % WRAP + b) % WRAP == (a + b) % WRAP
  {
  }
}
