/** `cdrom_mode1_edc_ecc`: the lookup tables, the code and the two parity layers of a sector. */
module CdSector {
  import opened BitOps
  import opened CdGf
  import opened CdCodeword
  import opened CdEdc

  const SECTOR: nat := 2352
  const EDC_AT: nat := 0x810
  const P_AT: nat := 0x81C
  const Q_AT: nat := 0x8C8

  // ---------- the layout of the two parity layers ----------

  /** Codewords, data bytes per codeword, and data bytes, of the P layer and of the Q layer. */
  function Count(q: bool): nat { if q then 52 else 86 }
  function Data(q: bool): nat { if q then 43 else 24 }
  function Size(q: bool): nat { Count(q) * Data(q) }
  function Dest(q: bool): nat { if q then Q_AT else P_AT }
  function Mult(q: bool): nat { if q then 86 else 2 }
  function Inc(q: bool): nat { if q then 88 else 86 }

  function Index(q: bool, major: nat, minor: nat): (i: nat)
    ensures i < Size(q)
  {
    if q then (major / 2 * 86 + major % 2 + 88 * minor) % 2236
    else (major / 2 * 2 + major % 2 + 86 * minor) % 2064
  }

  /** The first `n` data bytes of a codeword. */
  function DataBytes(s: seq<Byte>, q: bool, major: nat, n: nat): (w: seq<Byte>)
    requires |s| >= Dest(q)
    ensures |w| == n
  {
    seq(n, k requires 0 <= k < n => s[0xC + Index(q, major, k)])
  }

  /** A whole codeword: its data bytes and its two parity bytes. */
  function Codeword(s: seq<Byte>, q: bool, major: nat): seq<Byte>
    requires |s| >= SECTOR && major < Count(q)
  {
    DataBytes(s, q, major, Data(q)) + [s[Dest(q) + major], s[Dest(q) + Count(q) + major]]
  }

  /** Every codeword of a layer is valid. */
  ghost predicate LayerValid(s: seq<Byte>, q: bool)
    requires |s| >= SECTOR
  {
    forall m :: 0 <= m < Count(q) ==> IsCodeword(Codeword(s, q, m))
  }

  /** A valid Mode 1 sector: no remainder over header, data and code, eight zero bytes,
      and both parity layers valid. */
  ghost predicate ValidMode1(s: seq<Byte>) {
    && |s| >= SECTOR
    && EdcOf(s[..EDC_AT + 4]) == 0
    && (forall i :: EDC_AT + 4 <= i < P_AT ==> s[i] == 0)
    && LayerValid(s, false)
    && LayerValid(s, true)
  }

  lemma {:induction false} DataBytesSame(s: seq<Byte>, t: seq<Byte>, q: bool, major: nat, n: nat)
    requires |s| >= Dest(q) && |t| >= Dest(q) && s[0xC..Dest(q)] == t[0xC..Dest(q)]
    ensures DataBytes(s, q, major, n) == DataBytes(t, q, major, n)
  {
    forall k | 0 <= k < n ensures s[0xC + Index(q, major, k)] == t[0xC + Index(q, major, k)] {
      var i := Index(q, major, k);
      assert s[0xC..Dest(q)][i] == t[0xC..Dest(q)][i];
    }
  }

  // ---------- the tables ----------

  class Coder {
    const edcLut: array<nat>
    const fLut: array<Byte>
    const bLut: array<Byte>

    ghost predicate Filled()
      reads edcLut, fLut, bLut
    {
      && edcLut.Length == fLut.Length == bLut.Length == 256
      && (forall x: Byte :: edcLut[x] == EdcShifts(x, 8))
      && (forall x: Byte :: fLut[x] == TimesAlpha(x))
      && (forall x: Byte :: bLut[x] == OverThree(x))
    }

    /** Either the tables are filled, or the mark that they are not is still there. */
    ghost predicate Ready()
      reads edcLut, fLut, bLut
    {
      edcLut.Length == fLut.Length == bLut.Length == 256 && fLut != bLut && (edcLut[1] == 0 || Filled())
    }

    constructor ()
      ensures Ready() && fresh(edcLut) && fresh(fLut) && fresh(bLut)
    {
      edcLut := new nat[256](_ => 0);
      fLut := new Byte[256](_ => 0);
      bLut := new Byte[256](_ => 0);
    }

    method FillTables()
      requires Ready()
      modifies edcLut, fLut, bLut
      ensures Filled() && Ready()
    {
      hide TimesAlpha, TimesThree, OverThree, Xor, EdcShifts, Mask;
      var i: nat := 0;
      while i < 256
        invariant i <= 256 && edcLut.Length == fLut.Length == bLut.Length == 256
        invariant forall x: Byte :: x < i ==> edcLut[x] == EdcShifts(x, 8)
        invariant forall x: Byte :: x < i ==> fLut[x] == TimesAlpha(x)
        invariant forall x: Byte :: x < i ==> bLut[TimesThree(x)] == x
      {
        var j := TableEntry(i);
        fLut[i] := j % 256;
        forall x: Byte | x < i ensures TimesThree(x) != TimesThree(i) {
          if TimesThree(x) == TimesThree(i) { TimesThreeInjective(x, i); }
        }
        bLut[Xor(i, j)] := i;
        edcLut[i] := EdcEntry(i);
        i := i + 1;
      }
      forall y: Byte ensures bLut[y] == OverThree(y) {
        TimesOverThree(y);
      }
    }

    static method TableEntry(i: Byte) returns (j: nat)
      ensures j == TimesAlpha(i) && Xor(i, j) == TimesThree(i)
    {
      j := Xor(2 * i, if i >= 128 then 0x11D else 0);
    }

    static method EdcEntry(i: Byte) returns (edc: nat)
      ensures edc == EdcShifts(i, 8)
    {
      edc := i;
      var k: nat := 0;
      while k < 8
        invariant k <= 8 && EdcShifts(edc, 8 - k) == EdcShifts(i, 8)
      {
        edc := Xor(edc / 2, if edc % 2 == 1 then 0xD801_8001 else 0);
        k := k + 1;
      }
    }

    // ---------- the sector ----------

    /** Turn a sector whose header and data are in place into a valid Mode 1 sector. */
    method Cook(s: array<Byte>)
      requires Ready() && s.Length >= SECTOR && s != fLut && s != bLut
      modifies s, edcLut, fLut, bLut
      ensures Ready()
      ensures ValidMode1(s[..])
      ensures forall i :: 0 <= i < EDC_AT || SECTOR <= i < s.Length ==> s[i] == old(s[i])
    {
      hide LayerValid, ValidMode1, EdcOf, Filled, Ready;
      Prepare();
      var edc := Edc(s);
      StoreEdc(s, edc);
      ghost var s1 := s[..];
      ParityLayer(s, false);
      ghost var s2 := s[..];
      ParityLayer(s, true);
      LayersDone(s1, s2, s[..]);
      FilledReady();
    }

    /** Fill the tables the first time round. */
    method Prepare()
      requires Ready()
      modifies edcLut, fLut, bLut
      ensures Filled() && fLut != bLut
    {
      if edcLut[1] == 0 { FillTables(); }
    }

    lemma FilledReady()
      requires Filled() && fLut != bLut
      ensures Ready()
    {
    }

    method Edc(s: array<Byte>) returns (edc: Word)
      requires Filled() && s.Length >= SECTOR
      ensures edc == EdcOf(s[..EDC_AT])
    {
      hide EdcOf, EdcFeed, EdcShifts, Xor;
      edc := 0;
      EdcOfNone();
      var i: nat := 0;
      while i < EDC_AT
        invariant i <= EDC_AT && edc == EdcOf(s[..i])
      {
        EdcTableStep(edc, s[i]);
        EdcSnoc(s[..i], s[i]);
        assert s[..i + 1] == s[..i] + [s[i]];
        EdcOfFits(s[..i + 1]);
        edc := Xor(edc / 256, edcLut[Xor(edc, s[i]) % 256]);
        i := i + 1;
      }
    }

    static method StoreEdc(s: array<Byte>, edc: Word)
      requires s.Length >= SECTOR && edc == EdcOf(s[..EDC_AT])
      modifies s
      ensures EdcOf(s[..EDC_AT + 4]) == 0
      ensures forall i :: EDC_AT + 4 <= i < P_AT ==> s[i] == 0
      ensures forall i :: 0 <= i < EDC_AT || P_AT <= i < s.Length ==> s[i] == old(s[i])
    {
      hide EdcOf;
      ghost var msg := s[..EDC_AT];
      s[EDC_AT] := edc % 256;
      s[EDC_AT + 1] := edc / 0x100 % 256;
      s[EDC_AT + 2] := edc / 0x1_0000 % 256;
      s[EDC_AT + 3] := edc / 0x100_0000 % 256;
      assert s[..EDC_AT + 4] == msg + LittleEndian(edc);
      EdcResidue(msg, edc);
      ghost var head := s[..EDC_AT + 4];
      var i: nat := EDC_AT + 4;
      while i < P_AT
        invariant EDC_AT + 4 <= i <= P_AT && s[..EDC_AT + 4] == head
        invariant forall k :: EDC_AT + 4 <= k < i ==> s[k] == 0
        invariant forall k :: 0 <= k < EDC_AT || P_AT <= k < s.Length ==> s[k] == old(s[k])
      {
        s[i] := 0;
        i := i + 1;
      }
    }

    /** One round of the outer loop: all parity bytes of one layer. */
    method ParityLayer(s: array<Byte>, q: bool)
      requires Filled() && s.Length >= SECTOR && s != fLut && s != bLut
      modifies s
      ensures LayerValid(s[..], q)
      ensures forall i :: 0 <= i < Dest(q) || Dest(q) + 2 * Count(q) <= i < s.Length ==> s[i] == old(s[i])
    {
      hide IsCodeword, ParityBytes, DataBytes;
      ghost var s0 := s[..];
      var major: nat := 0;
      while major < Count(q)
        invariant major <= Count(q)
        invariant forall i :: 0 <= i < Dest(q) || Dest(q) + 2 * Count(q) <= i < s.Length ==> s[i] == s0[i]
        invariant forall m :: 0 <= m < major ==>
          (s[Dest(q) + m], s[Dest(q) + Count(q) + m]) == ParityBytes(DataBytes(s0, q, m, Data(q)))
      {
        assert s[0xC..Dest(q)] == s0[0xC..Dest(q)];
        DataBytesSame(s[..], s0, q, major, Data(q));
        var a, b := Parity(s, q, major);
        s[Dest(q) + major] := a;
        s[Dest(q) + Count(q) + major] := b;
        major := major + 1;
      }
      ParityStored(s0, s[..], q);
    }

    /** The inner loop: the two parity bytes of one codeword. */
    method Parity(s: array<Byte>, q: bool, major: nat) returns (p: Byte, r: Byte)
      requires Filled() && s.Length >= SECTOR && major < Count(q)
      ensures (p, r) == ParityBytes(DataBytes(s[..], q, major, Data(q)))
    {
      hide Syndrome0, Syndrome1, TimesAlpha, OverThree, Xor, DataBytes;
      var index: nat := major / 2 * Mult(q) + major % 2;
      var a: Byte, b: Byte := 0, 0;
      NoData(s[..], q, major);
      var minor: nat := 0;
      while minor < Data(q)
        invariant minor <= Data(q) && index == Index(q, major, minor)
        invariant a == TimesAlpha(Syndrome1(DataBytes(s[..], q, major, minor)))
        invariant b == Syndrome0(DataBytes(s[..], q, major, minor))
      {
        var t := s[0xC + index];
        NextData(s[..], q, major, minor);
        index := index + Inc(q);
        if index >= Size(q) { index := index - Size(q); }
        a := Add(a, t);
        b := Add(b, t);
        a := fLut[a];
        minor := minor + 1;
      }
      p := bLut[Add(fLut[a], b)];
      r := Add(p, b);
    }
  }

  // ---------- proofs ----------

  lemma EdcOfNone()
    ensures forall s: seq<Byte> :: s == [] ==> EdcOf(s) == 0
  {
  }

  lemma NoData(s: seq<Byte>, q: bool, major: nat)
    requires |s| >= SECTOR && major < Count(q)
    ensures TimesAlpha(Syndrome1(DataBytes(s, q, major, 0))) == 0 && Syndrome0(DataBytes(s, q, major, 0)) == 0
    ensures major / 2 * Mult(q) + major % 2 == Index(q, major, 0)
  {
    XorZero(0);
  }

  lemma NextData(s: seq<Byte>, q: bool, major: nat, minor: nat)
    requires |s| >= SECTOR && major < Count(q) && minor < Data(q)
    ensures var t, w := s[0xC + Index(q, major, minor)], DataBytes(s, q, major, minor);
            && Syndrome0(DataBytes(s, q, major, minor + 1)) == Add(Syndrome0(w), t)
            && Syndrome1(DataBytes(s, q, major, minor + 1)) == Add(TimesAlpha(Syndrome1(w)), t)
    ensures var i := Index(q, major, minor) + Inc(q);
            Index(q, major, minor + 1) == if i >= Size(q) then i - Size(q) else i
  {
    hide Index, Syndrome0, Syndrome1, TimesAlpha;
    var t, w := s[0xC + Index(q, major, minor)], DataBytes(s, q, major, minor);
    SyndromesSnoc(w, t);
    assert DataBytes(s, q, major, minor + 1) == w + [t];
    NextIndex(q, major, minor);
  }

  lemma NextIndex(q: bool, major: nat, minor: nat)
    ensures var i := Index(q, major, minor) + Inc(q);
            Index(q, major, minor + 1) == if i >= Size(q) then i - Size(q) else i
  {
    var m := major / 2 * Mult(q) + major % 2;
    if q { Wrap2236(m + 88 * minor); } else { Wrap2064(m + 86 * minor); }
  }

  lemma Wrap2236(a: nat)
    ensures (a + 88) % 2236 == if a % 2236 + 88 >= 2236 then a % 2236 + 88 - 2236 else a % 2236 + 88
  {
  }

  lemma Wrap2064(a: nat)
    ensures (a + 86) % 2064 == if a % 2064 + 86 >= 2064 then a % 2064 + 86 - 2064 else a % 2064 + 86
  {
  }

  lemma ParityStored(s0: seq<Byte>, s: seq<Byte>, q: bool)
    requires |s| == |s0| >= SECTOR && s[..Dest(q)] == s0[..Dest(q)]
    requires forall m :: 0 <= m < Count(q) ==>
      (s[Dest(q) + m], s[Dest(q) + Count(q) + m]) == ParityBytes(DataBytes(s0, q, m, Data(q)))
    ensures LayerValid(s, q)
  {
    hide IsCodeword, ParityBytes, DataBytes;
    forall m | 0 <= m < Count(q) ensures IsCodeword(Codeword(s, q, m)) {
      assert s[0xC..Dest(q)] == s[..Dest(q)][0xC..] == s0[0xC..Dest(q)];
      DataBytesSame(s, s0, q, m, Data(q));
      ParityComplete(DataBytes(s, q, m, Data(q)), s[Dest(q) + m], s[Dest(q) + Count(q) + m]);
    }
  }

  /** Writing the Q layer leaves the P layer valid: no P codeword reaches that far. */
  lemma LayerKept(s: seq<Byte>, t: seq<Byte>)
    requires |s| == |t| >= SECTOR && LayerValid(s, false) && s[..Q_AT] == t[..Q_AT]
    ensures LayerValid(t, false)
  {
    hide IsCodeword, DataBytes;
    forall m | 0 <= m < Count(false) ensures IsCodeword(Codeword(t, false, m)) {
      assert IsCodeword(Codeword(s, false, m));
      assert s[0xC..P_AT] == s[..Q_AT][0xC..P_AT] == t[0xC..P_AT];
      DataBytesSame(s, t, false, m, Data(false));
      assert s[..Q_AT][P_AT + m] == t[..Q_AT][P_AT + m] && s[..Q_AT][P_AT + 86 + m] == t[..Q_AT][P_AT + 86 + m];
    }
  }

  lemma LayersDone(s1: seq<Byte>, s2: seq<Byte>, s3: seq<Byte>)
    requires |s1| == |s2| == |s3| >= SECTOR
    requires EdcOf(s1[..EDC_AT + 4]) == 0 && forall i :: EDC_AT + 4 <= i < P_AT ==> s1[i] == 0
    requires forall i :: 0 <= i < P_AT ==> s2[i] == s1[i]
    requires forall i :: 0 <= i < Q_AT ==> s3[i] == s2[i]
    requires LayerValid(s2, false) && LayerValid(s3, true)
    ensures ValidMode1(s3)
  {
    hide LayerValid, EdcOf;
    assert s3[..EDC_AT + 4] == s1[..EDC_AT + 4];
    assert s2[..Q_AT] == s3[..Q_AT];
    LayerKept(s2, s3);
  }

  // ---------- what validity means ----------

  /** The protected part of a valid sector is a multiple of the generator polynomial. */
  lemma ValidIsMultiple(s: seq<Byte>) returns (m: nat)
    requires ValidMode1(s)
    ensures Poly(s[..EDC_AT + 4]) == Clmul(m, GENERATOR)
  {
    hide EdcOf, Poly, Clmul, LayerValid;
    m := ResidueMultiple(s[..EDC_AT + 4]);
  }

  /** There is one valid sector for given header and data: what `Cook` writes is forced. */
  lemma ValidUnique(s: seq<Byte>, t: seq<Byte>)
    requires ValidMode1(s) && ValidMode1(t) && s[..EDC_AT] == t[..EDC_AT]
    ensures s[..SECTOR] == t[..SECTOR]
  {
    hide EdcOf, LayerValid, LittleEndian;
    assert s[..EDC_AT + 4] == s[..EDC_AT] + s[EDC_AT..EDC_AT + 4];
    assert t[..EDC_AT + 4] == t[..EDC_AT] + t[EDC_AT..EDC_AT + 4];
    EdcUnique(s[..EDC_AT], s[EDC_AT..EDC_AT + 4]);
    EdcUnique(t[..EDC_AT], t[EDC_AT..EDC_AT + 4]);
    assert s[..P_AT] == s[..EDC_AT + 4] + s[EDC_AT + 4..P_AT];
    assert t[..P_AT] == t[..EDC_AT + 4] + t[EDC_AT + 4..P_AT];
    LayerUnique(s, t, false);
    LayerUnique(s, t, true);
  }

  lemma LayerUnique(s: seq<Byte>, t: seq<Byte>, q: bool)
    requires |s| >= SECTOR && |t| >= SECTOR && LayerValid(s, q) && LayerValid(t, q)
    requires s[..Dest(q)] == t[..Dest(q)]
    ensures s[..Dest(q) + 2 * Count(q)] == t[..Dest(q) + 2 * Count(q)]
  {
    hide IsCodeword, ParityBytes, DataBytes;
    assert s[0xC..Dest(q)] == s[..Dest(q)][0xC..] == t[0xC..Dest(q)];
    forall m | 0 <= m < Count(q) ensures SameParity(s, t, q, m) {
      assert IsCodeword(Codeword(s, q, m)) && IsCodeword(Codeword(t, q, m));
      DataBytesSame(s, t, q, m, Data(q));
      ParityComplete(DataBytes(s, q, m, Data(q)), s[Dest(q) + m], s[Dest(q) + Count(q) + m]);
      ParityComplete(DataBytes(t, q, m, Data(q)), t[Dest(q) + m], t[Dest(q) + Count(q) + m]);
    }
    forall i | 0 <= i < Dest(q) + 2 * Count(q) ensures s[i] == t[i] {
      if i < Dest(q) { assert s[..Dest(q)][i] == t[..Dest(q)][i]; }
      else if i < Dest(q) + Count(q) { assert SameParity(s, t, q, i - Dest(q)); }
      else { assert SameParity(s, t, q, i - Dest(q) - Count(q)); }
    }
  }

  ghost predicate SameParity(s: seq<Byte>, t: seq<Byte>, q: bool, m: int)
    requires |s| >= SECTOR && |t| >= SECTOR && 0 <= m < Count(q)
  {
    s[Dest(q) + m] == t[Dest(q) + m] && s[Dest(q) + Count(q) + m] == t[Dest(q) + Count(q) + m]
  }
}
