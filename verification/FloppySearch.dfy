/** What a search finds on any track at all, and on which tracks it comes to an end.  Positions run
    on round the track: position `p` is byte `p` modulo the track's length. */
module FloppySearch {
  import opened Numbers
  import opened BitOps
  import opened FloppyCrc

  /** A track's data and clock bytes; what lies behind the track's end is only ever read for checksums. */
  datatype Ring = Ring(bytes: seq<Byte>, clocks: seq<Byte>, length: nat)

  predicate Proper(r: Ring) { 0 < r.length < 0x1_0000 && |r.bytes| == |r.clocks| == r.length + 1024 }

  function ByteAt(r: Ring, p: nat): Byte
    requires Proper(r)
  {
    r.bytes[p % r.length]
  }

  predicate Mark(r: Ring, p: nat)
    requires Proper(r)
  {
    r.bytes[p % r.length] == 0xA1 && r.clocks[p % r.length] != 0
  }

  lemma ModTurn(length: nat, p: nat, j: nat)
    requires length > 0
    ensures (p % length + j) % length == (p + j) % length && (p + length) % length == p % length
    ensures p % length % length == p % length
  {
    hide Turns;
    WholeTurns(length, p);
    SameTurns(length, p % length + j, p / length);
    SameTurns(length, p % length, p / length);
    Once(length, p);
  }

  lemma WholeTurns(length: nat, p: nat)
    requires length > 0
    ensures p == p % length + Turns(length, p / length)
  {
  }

  lemma Same(length: nat, p: nat, q: nat)
    requires length > 0
    ensures (p + length * q) % length == p % length
    ensures p < length ==> p % length == p
  {
    SameTurns(length, p, q);
    assert Turns(length, q) == length * q;
  }

  lemma {:induction false} SameTurns(length: nat, p: nat, q: nat)
    requires length > 0
    ensures (p + Turns(length, q)) % length == p % length
    decreases q
  {
    hide Turns;
    TurnsMore(length, q);
    if q == 0 {
    } else {
      SameTurns(length, p, q - 1);
      Once(length, p + Turns(length, q - 1));
    }
  }

  /** So many times round. */
  function Turns(length: nat, q: nat): nat { length * q }

  lemma TurnsMore(length: nat, q: nat)
    ensures Turns(length, q) == if q == 0 then 0 else Turns(length, q - 1) + length
  {
  }

  lemma Once(length: nat, p: nat)
    requires length > 0
    ensures (p + length) % length == p % length
  {
    ModStep(p + length, length);
  }

  lemma MarkTurn(r: Ring, p: nat)
    requires Proper(r)
    ensures Mark(r, p + r.length) == Mark(r, p) == Mark(r, p % r.length)
    ensures ByteAt(r, p + r.length) == ByteAt(r, p) == ByteAt(r, p % r.length)
  {
    ModTurn(r.length, p, 0);
  }

  datatype Address = NoAddress | Address(marked: nat, off: nat, end: nat, crcOk: bool)

  datatype Found = NotFound | Found(address: Address, marked: nat, off: nat, end: nat, size: nat, crcOk: bool)

  // ---------- runs of marks ----------

  /** How many marks there are from a position on, up to `n`. */
  function Run(r: Ring, p: nat, n: nat): (m: nat)
    requires Proper(r)
    ensures m <= n && forall j :: p <= j < p + m ==> Mark(r, j)
    ensures m < n ==> !Mark(r, p + m)
    decreases n
  {
    if n == 0 || !Mark(r, p) then 0 else 1 + Run(r, p + 1, n - 1)
  }

  lemma {:induction false} RunIs(r: Ring, p: nat, n: nat, m: nat)
    requires Proper(r) && m <= n && (forall j :: p <= j < p + m ==> Mark(r, j)) && (m < n ==> !Mark(r, p + m))
    ensures Run(r, p, n) == m
    decreases m
  {
    hide Mark;
    if m == 0 {
    } else {
      RunIs(r, p + 1, n - 1, m - 1);
    }
  }

  lemma RunTurn(r: Ring, p: nat)
    requires Proper(r)
    ensures Run(r, p % r.length, r.length) == Run(r, p, r.length)
  {
    hide Mark;
    var n, m := r.length, Run(r, p, r.length);
    forall j | p % n <= j < p % n + m ensures Mark(r, j) {
      Shift(r, p, j - p % n);
    }
    if m < n { Shift(r, p, m); }
    RunIs(r, p % n, n, m);
  }

  lemma Shift(r: Ring, p: nat, j: nat)
    requires Proper(r)
    ensures Mark(r, p % r.length + j) == Mark(r, p + j) && ByteAt(r, p % r.length + j) == ByteAt(r, p + j)
  {
    ModTurn(r.length, p, j);
  }

  /** Once a run goes all the way round, all is marks. */
  lemma AllMarks(r: Ring, p: nat, q: nat)
    requires Proper(r) && Run(r, p, r.length) == r.length
    ensures Mark(r, q)
  {
    hide Mark, Run;
    var n := r.length;
    var j := (q + n - p % n) % n;
    ModTurn(n, p, j);
    ModTurn(n, q + n - p % n, p % n);
    ModTurn(n, q, 0);
    assert (p + j) % n == q % n;
    MarkTurn(r, p + j);
    MarkTurn(r, q);
  }

  lemma Small(p: nat, length: nat)
    requires p < length
    ensures p % length == p
  {
  }

  /** A run that comes to an end does so within one turn. */
  lemma EndOfRun(r: Ring, p: nat, q: nat)
    requires Proper(r) && p < q <= p + r.length + 1 && (forall j :: p <= j < q ==> Mark(r, j)) && !Mark(r, q)
    ensures q < p + r.length && Run(r, p, r.length) == q - p
  {
    hide Run, Mark;
    MarkTurn(r, p);
    MarkTurn(r, p + 1);
    if q < p + r.length { RunIs(r, p, r.length, q - p); }
  }

  // ---------- address fields ----------

  /** The first byte after a run of marks. */
  function Marker(r: Ring, p: nat): (x: nat)
    requires Proper(r)
  {
    p + Run(r, p, r.length)
  }

  /** A run of marks from `p` on that ends in an address field. */
  predicate Hits(r: Ring, p: nat)
    requires Proper(r)
  {
    Mark(r, p) && Run(r, p, r.length) < r.length && ByteAt(r, Marker(r, p)) == 0xFE
  }

  /** The same, from the offset that a position falls on. */
  lemma HitsIs(r: Ring, p: nat)
    requires Proper(r)
    ensures Hits(r, p) <==> Mark(r, p % r.length) && Run(r, p % r.length, r.length) < r.length
                            && ByteAt(r, Marker(r, p % r.length)) == 0xFE
  {
    hide Mark, Run, ByteAt;
    RunTurn(r, p);
    MarkTurn(r, p);
    Shift(r, p, Run(r, p, r.length));
  }

  lemma MarkerTurn(r: Ring, p: nat)
    requires Proper(r)
    ensures Marker(r, p % r.length) % r.length == Marker(r, p) % r.length
    ensures ByteAt(r, Marker(r, p % r.length)) == ByteAt(r, Marker(r, p))
    ensures Run(r, p % r.length, r.length) == Run(r, p, r.length)
  {
    hide Mark, Run;
    RunTurn(r, p);
    ModTurn(r.length, p, Run(r, p, r.length));
  }

  /** Where all is marks there is no field. */
  lemma NoHits(r: Ring, p: nat, from: nat)
    requires Proper(r) && Run(r, p, r.length) == r.length
    ensures !HasAddress(r, from)
  {
    hide Mark, ByteAt;
    forall j: nat | from <= j < from + r.length ensures !Hits(r, j) {
      forall i: nat | j <= i < j + r.length ensures Mark(r, i) { AllMarks(r, p, i); }
      RunIs(r, j, r.length, r.length);
    }
    FirstIs(r, from, r.length, r.length);
  }

  /** How far it is to the first such place, up to `n`. */
  function First(r: Ring, p: nat, n: nat): (d: nat)
    requires Proper(r)
    ensures d <= n
    decreases n
  {
    if n == 0 || Hits(r, p) then 0 else 1 + First(r, p + 1, n - 1)
  }

  lemma {:induction false} FirstHit(r: Ring, p: nat, n: nat)
    requires Proper(r)
    ensures forall j :: p <= j < p + First(r, p, n) ==> !Hits(r, j)
    ensures First(r, p, n) < n ==> Hits(r, p + First(r, p, n))
    decreases n
  {
    hide Hits;
    if n == 0 {
    } else {
      FirstHit(r, p + 1, n - 1);
    }
  }

  lemma {:induction false} FirstIs(r: Ring, p: nat, n: nat, d: nat)
    requires Proper(r) && d <= n && (forall j :: p <= j < p + d ==> !Hits(r, j)) && (d < n ==> Hits(r, p + d))
    ensures First(r, p, n) == d
    decreases d
  {
    hide Hits;
    if d == 0 {
    } else {
      FirstIs(r, p + 1, n - 1, d - 1);
    }
  }

  predicate HasAddress(r: Ring, from: nat)
    requires Proper(r)
  {
    First(r, from, r.length) < r.length
  }

  /** The position of the byte that begins the first address field from a position on. */
  function AddressAt(r: Ring, from: nat): (x: nat)
    requires Proper(r) && HasAddress(r, from)
    ensures x > from && ByteAt(r, x) == 0xFE && Mark(r, x - 1)
  {
    var p := from + First(r, from, r.length);
    FirstHit(r, from, r.length);
    assert Run(r, p, r.length) > 0;
    Marker(r, p)
  }

  /** How many bytes a checksum is taken of, for a field whose marks begin at `p` and which goes on for
      `n` bytes from `off` on: a difference of 32-bit numbers. */
  function CrcLength(p: nat, off: nat, n: nat): nat {
    (off - p + n) % WRAP
  }

  /** The checksum is taken of bytes of the track's own buffer. */
  predicate InBuffer(r: Ring, p: nat, off: nat, n: nat) {
    p <= off + n <= |r.bytes|
  }

  /** That is the condition: if the marks cross the track's end the difference wraps. */
  lemma InBufferExactly(r: Ring, p: nat, off: nat, n: nat)
    requires Proper(r) && p < r.length && off < r.length && n <= 0x8000_0000
    ensures p + CrcLength(p, off, n) <= |r.bytes| <==> InBuffer(r, p, off, n)
    ensures InBuffer(r, p, off, n) ==> p + CrcLength(p, off, n) == off + n
  {
  }

  /** The checksum test of such a field. */
  predicate CrcTest(r: Ring, p: nat, off: nat, n: nat, ok: bool)
    requires Proper(r)
  {
    InBuffer(r, p, off, n) ==>
      var crc := Crc(r.bytes[p..off + n]);
      ok <==> ByteAt(r, off + n) == crc / 0x100 && ByteAt(r, off + n + 1) == crc % 0x100
  }

  /** The checksum of the address field found from a position on can be taken. */
  predicate FieldInBuffer(r: Ring, from: nat)
    requires Proper(r)
  {
    HasAddress(r, from) ==>
      InBuffer(r, (from + First(r, from, r.length)) % r.length, (AddressAt(r, from) + 1) % r.length, 4)
  }

  /** The address field that is found from a position on. */
  predicate AddressIs(r: Ring, a: Address, from: nat)
    requires Proper(r)
  {
    if !HasAddress(r, from) then a.NoAddress?
    else
      a.Address? && a.marked == (from + First(r, from, r.length)) % r.length
      && a.off == (AddressAt(r, from) + 1) % r.length && a.end == (AddressAt(r, from) + 7) % r.length
      && CrcTest(r, a.marked, a.off, 4, a.crcOk)
  }

  lemma NoneThere(r: Ring, from: nat)
    requires Proper(r) && !HasAddress(r, from)
    ensures AddressIs(r, NoAddress, from)
  {
    hide HasAddress;
  }

  // ---------- data fields ----------

  /** How far it is to the first mark, up to `n`. */
  function ToMark(r: Ring, p: nat, n: nat): (d: nat)
    requires Proper(r)
    ensures d <= n && forall j :: p <= j < p + d ==> !Mark(r, j)
    ensures d < n ==> Mark(r, p + d)
    decreases n
  {
    if n == 0 || Mark(r, p) then 0 else 1 + ToMark(r, p + 1, n - 1)
  }

  lemma {:induction false} ToMarkIs(r: Ring, p: nat, n: nat, d: nat)
    requires Proper(r) && d <= n && (forall j :: p <= j < p + d ==> !Mark(r, j)) && (d < n ==> Mark(r, p + d))
    ensures ToMark(r, p, n) == d
    decreases d
  {
    hide Mark;
    if d == 0 {
    } else {
      ToMarkIs(r, p + 1, n - 1, d - 1);
    }
  }

  /** The size that a code stands for, in 32 bits. */
  function SizeOf(code: Byte): (size: nat)
    ensures code == 1 ==> size == 256
    ensures size <= 0x8000_0000
  {
    hide Shl;
    if code == 0 then 128
    else if code < 25 then
      SizeFits(code);
      Shl(128, code)
    else 0
  }

  lemma SizeFits(code: nat)
    requires code < 25
    ensures Shl(128, code) <= 0x8000_0000 && Shl(128, 1) == 256
  {
    hide Shl;
    ShlTwice(128, code, 24 - code);
    ShlUp(Shl(128, code), 24 - code);
    ShlTwice(128, 16, 8);
    Powers(128);
    Powers(Shl(128, 16));
    ShlUp(128, 0);
  }

  lemma LargestSize()
    ensures SizeOf(24) == 0x8000_0000
  {
    hide Shl;
    ShlTwice(128, 16, 8);
    Powers(128);
    Powers(Shl(128, 16));
  }

  lemma {:induction false} ShlUp(v: nat, n: nat)
    ensures Shl(v, n) >= v && Shl(v, 0) == v && Shl(v, n + 1) == 2 * Shl(v, n)
  {
    if n == 0 {
    } else {
      ShlUp(v, n - 1);
    }
  }

  /** Where the data of the sector whose address field ends at `e` is looked for: at the first mark. */
  function DataMark(r: Ring, e: nat): (p: nat)
    requires Proper(r) && e < r.length
    ensures p >= e
  {
    e + ToMark(r, e, 2 * r.length - e)
  }

  predicate HasData(r: Ring, e: nat)
    requires Proper(r) && e < r.length
  {
    DataMark(r, e) < 2 * r.length && Run(r, DataMark(r, e), r.length) < r.length
    && 0xF8 <= ByteAt(r, Marker(r, DataMark(r, e))) <= 0xFB
  }

  /** Where there are marks from a position on, in two turns at most, and an end to them, it is the byte
      behind them that decides: any of four begins a data field. */
  lemma DataKinds(r: Ring, e: nat, p: nat, n: nat)
    requires Proper(r) && e < r.length && e <= p < 2 * r.length && 0 < n < r.length
    requires forall j :: e <= j < p ==> !Mark(r, j)
    requires (forall j :: p <= j < p + n ==> Mark(r, j)) && !Mark(r, p + n)
    ensures HasData(r, e) <==> ByteAt(r, p + n) in {0xF8, 0xF9, 0xFA, 0xFB}
  {
    hide Mark, Run, ToMark;
    ToMarkIs(r, e, 2 * r.length - e, p - e);
    RunIs(r, p, r.length, n);
  }

  /** What is found behind an address field. */
  predicate DataIs(r: Ring, f: Found, a: Address)
    requires Proper(r) && a.Address? && a.end < r.length
  {
    if !HasData(r, a.end) then f.NotFound?
    else
      f.Found? && f.address == a && f.marked == DataMark(r, a.end) % r.length
      && f.off == (Marker(r, DataMark(r, a.end)) + 1) % r.length && f.size == SizeOf(ByteAt(r, a.off + 3))
      && f.end == (f.off + f.size) % r.length && CrcTest(r, f.marked, f.off, f.size, f.crcOk)
  }

  /** The checksum of the data behind the address field found from a position on can be taken. */
  predicate DataInBuffer(r: Ring, from: nat)
    requires Proper(r) && HasAddress(r, from)
  {
    var x := AddressAt(r, from);
    var e := (x + 7) % r.length;
    HasData(r, e) ==>
      InBuffer(r, DataMark(r, e) % r.length, (Marker(r, DataMark(r, e)) + 1) % r.length,
               SizeOf(ByteAt(r, (x + 1) % r.length + 3)))
  }

  // ---------- going round ----------

  /** Where the search stands after `n` address fields. */
  function Visit(r: Ring, from: nat, n: nat): (o: nat)
    requires Proper(r)
    ensures n > 0 ==> o < r.length
    ensures from < r.length ==> o < r.length
  {
    if n == 0 then from
    else
      var o := Visit(r, from, n - 1);
      if HasAddress(r, o) then (AddressAt(r, o) + 7) % r.length else o % r.length
  }

  /** The sector number in the first address field from a position on. */
  function Number(r: Ring, from: nat): Byte
    requires Proper(r) && HasAddress(r, from)
  {
    ByteAt(r, AddressAt(r, from) + 3)
  }

  /** What stops the search for a sector after `n` fields: there is none; it has the number; or it is
      the first one again. */
  predicate EndsAt(r: Ring, from: nat, sect: Byte, n: nat)
    requires Proper(r)
  {
    var o := Visit(r, from, n);
    !HasAddress(r, o) || Number(r, o) == sect || (n > 0 && Visit(r, from, n + 1) == Visit(r, from, 1))
  }

  ghost predicate Ends(r: Ring, from: nat, sect: Byte)
    requires Proper(r)
  {
    exists n :: EndsAt(r, from, sect, n)
  }

  ghost predicate StopsAt(r: Ring, from: nat, sect: Byte, n: nat)
    requires Proper(r)
  {
    EndsAt(r, from, sect, n) && forall m :: 0 <= m < n ==> !EndsAt(r, from, sect, m)
  }

  lemma {:induction false} StopsSometime(r: Ring, from: nat, sect: Byte, n: nat) returns (m: nat)
    requires Proper(r) && EndsAt(r, from, sect, n)
    ensures StopsAt(r, from, sect, m)
  {
    hide EndsAt;
    if k :| 0 <= k < n && EndsAt(r, from, sect, k) {
      m := StopsSometime(r, from, sect, k);
    } else {
      m := n;
    }
  }

  ghost function Stop(r: Ring, from: nat, sect: Byte): (n: nat)
    requires Proper(r) && Ends(r, from, sect)
    ensures StopsAt(r, from, sect, n)
  {
    hide EndsAt;
    assert exists n: nat :: StopsAt(r, from, sect, n) by {
      var k: nat :| EndsAt(r, from, sect, k);
      var m := StopsSometime(r, from, sect, k);
    }
    var n: nat :| StopsAt(r, from, sect, n);
    n
  }

  /** No field before the `n`-th has stopped the search. */
  predicate Unstopped(r: Ring, from: nat, sect: Byte, n: nat)
    requires Proper(r)
  {
    forall m :: 0 <= m < n ==> !EndsAt(r, from, sect, m)
  }

  /** The checksums at the `n`-th field can be taken. */
  predicate VisitInBuffer(r: Ring, from: nat, sect: Byte, n: nat)
    requires Proper(r)
  {
    var o := Visit(r, from, n);
    FieldInBuffer(r, o) && (HasAddress(r, o) && Number(r, o) == sect ==> DataInBuffer(r, o))
  }

  /** All checksums that the search comes to can be taken. */
  ghost predicate SearchInBuffer(r: Ring, from: nat, sect: Byte)
    requires Proper(r)
  {
    forall n: nat :: Unstopped(r, from, sect, n) ==> VisitInBuffer(r, from, sect, n)
  }

  /** The search comes back with an answer. */
  ghost predicate ComesBack(r: Ring, from: nat, sect: Byte)
    requires Proper(r)
  {
    Ends(r, from, sect) && SearchInBuffer(r, from, sect)
  }

  lemma {:induction false} VisitAdds(r: Ring, o: nat, a: nat, b: nat)
    requires Proper(r)
    ensures Visit(r, Visit(r, o, a), b) == Visit(r, o, a + b)
  {
    hide HasAddress, AddressAt;
    if b == 0 {
    } else {
      VisitAdds(r, o, a, b - 1);
    }
  }

  /** A search that has gone on for as many fields as the track has bytes never ends. */
  lemma EndsSoon(r: Ring, from: nat, sect: Byte)
    requires Proper(r) && Ends(r, from, sect)
    ensures Stop(r, from, sect) <= r.length
  {
    hide EndsAt, Visit;
    var n := Stop(r, from, sect);
    if n > r.length {
      VisitsBounded(r, from);
      var visits: seq<nat> := seq(r.length + 1, k requires 0 <= k => Visit(r, from, k + 1));
      var i, j := Pigeons(visits, r.length);
      assert visits[i] == Visit(r, from, i + 1) && visits[j] == Visit(r, from, j + 1);
      Periodic(r, from, sect, i + 1, j + 1, n);
    }
  }

  lemma VisitsBounded(r: Ring, from: nat)
    requires Proper(r)
    ensures forall n :: n > 0 ==> Visit(r, from, n) < r.length
  {
    hide HasAddress, AddressAt;
  }

  /** What stops the search after it has repeated itself has stopped it before. */
  lemma Periodic(r: Ring, from: nat, sect: Byte, a: nat, b: nat, n: nat)
    requires Proper(r) && 0 < a < b <= n && Visit(r, from, a) == Visit(r, from, b) && EndsAt(r, from, sect, n)
    ensures EndsAt(r, from, sect, n - (b - a))
  {
    hide Visit, HasAddress, AddressAt, Number;
    VisitAdds(r, from, a, n - b);
    VisitAdds(r, from, b, n - b);
    VisitAdds(r, from, a, n + 1 - b);
    VisitAdds(r, from, b, n + 1 - b);
  }

  /** What the search for a sector finds. */
  ghost predicate FoundIs(r: Ring, f: Found, from: nat, sect: Byte)
    requires Proper(r) && Ends(r, from, sect)
  {
    var o := Visit(r, from, Stop(r, from, sect));
    if HasAddress(r, o) && Number(r, o) == sect then
      exists a: Address :: AddressIs(r, a, o) && DataIs(r, f, a)
    else f.NotFound?
  }

  // ---------- one turn of the search ----------

  lemma VisitNone(r: Ring, from: nat)
    requires Proper(r)
    ensures Visit(r, from, 0) == from
  {
  }

  lemma AddressFacts(r: Ring, a: Address, o: nat)
    requires Proper(r) && AddressIs(r, a, o)
    ensures a.NoAddress? <==> !HasAddress(r, o)
    ensures a.Address? ==> a.off < r.length && a.end < r.length && a.end == (AddressAt(r, o) + 7) % r.length
                           && r.bytes[(a.off + 2) % r.length] == Number(r, o)
  {
    hide Hits, First, Run, CrcTest;
    if a.Address? { ModTurn(r.length, AddressAt(r, o) + 1, 2); }
  }

  /** Behind an address field: where its data is looked for, and that its checksum can be taken. */
  lemma DataFacts(r: Ring, a: Address, o: nat)
    requires Proper(r) && AddressIs(r, a, o) && a.Address? && DataInBuffer(r, o)
    ensures a.end < r.length
    ensures HasData(r, a.end) ==>
              InBuffer(r, DataMark(r, a.end) % r.length, (Marker(r, DataMark(r, a.end)) + 1) % r.length,
                       SizeOf(ByteAt(r, a.off + 3)))
  {
    hide Run, CrcTest, First, InBuffer, HasData, DataMark, SizeOf;
  }

  lemma StartsUnstopped(r: Ring, from: nat, sect: Byte)
    requires Proper(r)
    ensures Unstopped(r, from, sect, 0)
  {
  }

  lemma VisitMore(r: Ring, from: nat, n: nat)
    requires Proper(r)
    ensures HasAddress(r, Visit(r, from, n)) ==>
              Visit(r, from, n + 1) == (AddressAt(r, Visit(r, from, n)) + 7) % r.length
  {
    hide HasAddress, AddressAt;
  }

  lemma TheAddress(r: Ring, f: Found, from: nat, sect: Byte) returns (a: Address)
    requires Proper(r) && Ends(r, from, sect) && FoundIs(r, f, from, sect)
    requires var o := Visit(r, from, Stop(r, from, sect)); HasAddress(r, o) && Number(r, o) == sect
    ensures AddressIs(r, a, Visit(r, from, Stop(r, from, sect))) && a.Address? && a.end < r.length && DataIs(r, f, a)
  {
    hide Visit, Stop, HasAddress, Number, AddressAt, First, CrcTest, DataIs;
    a :| AddressIs(r, a, Visit(r, from, Stop(r, from, sect))) && DataIs(r, f, a);
  }

  /** What has not stopped the search before stops it now. */
  lemma Stops(r: Ring, from: nat, sect: Byte, n: nat)
    requires Proper(r) && Unstopped(r, from, sect, n) && EndsAt(r, from, sect, n)
    ensures Ends(r, from, sect) && Stop(r, from, sect) == n
  {
    hide EndsAt;
  }

  lemma GoesOn(r: Ring, from: nat, sect: Byte, n: nat)
    requires Proper(r) && Unstopped(r, from, sect, n) && !EndsAt(r, from, sect, n)
    ensures Unstopped(r, from, sect, n + 1)
  {
    hide EndsAt;
  }

  /** It has gone on for too long. */
  lemma TooLong(r: Ring, from: nat, sect: Byte, n: nat)
    requires Proper(r) && Unstopped(r, from, sect, n) && n > r.length
    ensures !Ends(r, from, sect)
  {
    hide EndsAt;
    if Ends(r, from, sect) { EndsSoon(r, from, sect); }
  }

  // ---------- what is read ----------

  /** Where a search for a sector finds data. */
  ghost predicate Shows(r: Ring, from: nat, sect: Byte)
    requires Proper(r) && Ends(r, from, sect)
  {
    var o := Visit(r, from, Stop(r, from, sect));
    HasAddress(r, o) && Number(r, o) == sect && HasData(r, (AddressAt(r, o) + 7) % r.length)
  }

  ghost function DataSpot(r: Ring, from: nat, sect: Byte): (off: nat)
    requires Proper(r) && Ends(r, from, sect) && Shows(r, from, sect)
    ensures off < r.length
  {
    var e := (AddressAt(r, Visit(r, from, Stop(r, from, sect))) + 7) % r.length;
    (Marker(r, DataMark(r, e)) + 1) % r.length
  }

  lemma FoundWhere(r: Ring, f: Found, from: nat, sect: Byte)
    requires Proper(r) && Ends(r, from, sect) && FoundIs(r, f, from, sect)
    ensures f.Found? <==> Shows(r, from, sect)
    ensures f.Found? ==> f.off == DataSpot(r, from, sect) < r.length
  {
    hide Visit, Stop, Run, HasData, DataMark, CrcTest, Ends, First;
    var o := Visit(r, from, Stop(r, from, sect));
    if HasAddress(r, o) && Number(r, o) == sect {
      var a := TheAddress(r, f, from, sect);
    }
  }
}
