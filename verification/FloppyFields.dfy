/** The address fields of any track: on which tracks every search comes to an end, and when it finds
    what is there. */
module FloppyFields {
  import opened Numbers
  import opened BitOps
  import opened FloppySearch

  /** The byte that begins an address field. */
  predicate IsField(r: Ring, x: nat)
    requires Proper(r)
  {
    x >= 1 && ByteAt(r, x) == 0xFE && Mark(r, x - 1)
  }

  predicate AnyField(r: Ring)
    requires Proper(r)
  {
    exists x: nat :: x <= r.length && IsField(r, x)
  }

  lemma ByteShift(r: Ring, p: nat, q: nat)
    requires Proper(r)
    ensures ByteAt(r, p + r.length * q) == ByteAt(r, p) && Mark(r, p + r.length * q) == Mark(r, p)
  {
    Same(r.length, p, q);
  }

  lemma FieldShift(r: Ring, x: nat, q: nat)
    requires Proper(r) && x >= 1
    ensures IsField(r, x + r.length * q) == IsField(r, x)
    ensures ByteAt(r, x + r.length * q + 3) == ByteAt(r, x + 3)
  {
    hide ByteAt, Mark;
    ByteShift(r, x, q);
    ByteShift(r, x - 1, q);
    ByteShift(r, x + 3, q);
    Positive(r.length, q);
    assert x + r.length * q - 1 == x - 1 + r.length * q;
    assert x + r.length * q + 3 == x + 3 + r.length * q;
  }

  lemma Positive(a: nat, b: nat)
    ensures a * b >= 0
  {
  }

  /** A field's place within one turn from `o` on. */
  lemma Within(r: Ring, x: nat, o: nat) returns (y: nat)
    requires Proper(r) && IsField(r, x)
    ensures o < y <= o + r.length && IsField(r, y)
    ensures y % r.length == x % r.length && ByteAt(r, y + 3) == ByteAt(r, x + 3)
  {
    hide IsField, ByteAt;
    var n := r.length;
    var z := if x % n == 0 then n else x % n;
    Reduce(r, x, z);
    y := UpTo(r, z, o);
  }

  lemma Reduce(r: Ring, x: nat, z: nat)
    requires Proper(r) && IsField(r, x) && z == if x % r.length == 0 then r.length else x % r.length
    ensures 1 <= z <= r.length && IsField(r, z) && z % r.length == x % r.length && ByteAt(r, z + 3) == ByteAt(r, x + 3)
  {
    hide ByteAt, Mark;
    var n := r.length;
    var q := if x % n == 0 then x / n - 1 else x / n;
    assert x == n * (x / n) + x % n;
    NotNone(x, n);
    assert x % n == 0 ==> n * (x / n) == n * q + n;
    assert x == z + n * q;
    FieldShift(r, z, q);
    Same(n, z, q);
  }

  lemma NotNone(x: nat, n: nat)
    requires n > 0 && x >= 1
    ensures x % n == 0 ==> x / n >= 1
  {
    if x / n == 0 { DivParts(x, n); }
  }

  lemma UpTo(r: Ring, z: nat, o: nat) returns (y: nat)
    requires Proper(r) && 1 <= z <= r.length && IsField(r, z)
    ensures o < y <= o + r.length && IsField(r, y)
    ensures y % r.length == z % r.length && ByteAt(r, y + 3) == ByteAt(r, z + 3)
    decreases o
  {
    hide ByteAt, IsField;
    if o < z {
      y := z;
    } else if o < r.length {
      y := z + r.length;
      FieldShift(r, z, 1);
      Same(r.length, z, 1);
    } else {
      var w := UpTo(r, z, o - r.length);
      y := w + r.length;
      FieldShift(r, w, 1);
      Same(r.length, w, 1);
    }
  }

  /** The address field found from a position on is the next field behind it, if there is any. */
  lemma AddressIsNext(r: Ring, o: nat)
    requires Proper(r) && r.length > 1
    ensures HasAddress(r, o) <==> AnyField(r)
    ensures HasAddress(r, o) ==>
              IsField(r, AddressAt(r, o)) && AddressAt(r, o) <= o + r.length
              && forall y :: o < y < AddressAt(r, o) ==> !IsField(r, y)
  {
    hide Mark, ByteAt, Run, First, AnyField;
    if HasAddress(r, o) { NextIs(r, o); }
    if AnyField(r) { Somewhere(r, o); }
  }

  lemma HitBefore(r: Ring, y: nat)
    requires Proper(r) && r.length > 1 && IsField(r, y)
    ensures Hits(r, y - 1)
  {
    hide Run;
    RunIs(r, y - 1, r.length, 1);
  }

  lemma Somewhere(r: Ring, o: nat)
    requires Proper(r) && r.length > 1 && AnyField(r)
    ensures HasAddress(r, o)
  {
    hide IsField, Hits;
    var x: nat :| x <= r.length && IsField(r, x);
    var y := Within(r, x, o);
    HitBefore(r, y);
    FirstHit(r, o, r.length);
    assert !(First(r, o, r.length) > y - 1 - o);
  }

  lemma NextIs(r: Ring, o: nat)
    requires Proper(r) && r.length > 1 && HasAddress(r, o)
    ensures IsField(r, AddressAt(r, o)) && AddressAt(r, o) <= o + r.length && AnyField(r)
    ensures forall y :: o < y < AddressAt(r, o) ==> !IsField(r, y)
  {
    hide ByteAt, Run;
    var n, d := r.length, First(r, o, r.length);
    FirstHit(r, o, r.length);
    var p, x := o + d, AddressAt(r, o);
    forall y | o < y < x ensures !IsField(r, y) {
      if y <= p {
        assert !Hits(r, y - 1);
        if IsField(r, y) { HitBefore(r, y); }
      } else {
        assert Mark(r, y);
        NoMark(r, y);
      }
    }
    if x > o + n { Overrun(r, o); }
    var w := Within(r, x, 0);
  }

  lemma NoMark(r: Ring, y: nat)
    requires Proper(r) && Mark(r, y)
    ensures ByteAt(r, y) != 0xFE
  {
  }

  /** A run that passes the starting point would have been found there. */
  lemma Overrun(r: Ring, o: nat)
    requires Proper(r) && HasAddress(r, o)
    ensures AddressAt(r, o) <= o + r.length
  {
    hide ByteAt, Run, Mark;
    var n, d := r.length, First(r, o, r.length);
    FirstHit(r, o, r.length);
    var x := AddressAt(r, o);
    assert d > 0 ==> !Hits(r, o);
    if x > o + n {
      var k := x - (o + n);
      forall j: nat | o <= j < o + k ensures Mark(r, j) {
        assert Mark(r, j + n);
        MarkTurn(r, j);
      }
      MarkTurn(r, o + k);
      RunIs(r, o, n, k);
    }
  }

  // ---------- from field to field ----------

  /** Where the search goes on after the field found from `o` on. */
  function Onward(r: Ring, o: nat): (e: nat)
    requires Proper(r) && HasAddress(r, o)
    ensures e < r.length
  {
    (AddressAt(r, o) + 7) % r.length
  }

  /** Moving the starting point by whole turns moves the field found as much. */
  lemma AddressShift(r: Ring, o: nat, q: nat, t: nat)
    requires Proper(r) && r.length > 1 && HasAddress(r, o) && t == r.length * q
    ensures HasAddress(r, o + t) && AddressAt(r, o + t) == AddressAt(r, o) + t
  {
    hide IsField, AnyField, HasAddress, AddressAt;
    AddressIsNext(r, o);
    AddressIsNext(r, o + t);
    var x, y := AddressAt(r, o), AddressAt(r, o + t);
    AddressBehind(r, o);
    AddressBehind(r, o + t);
    FieldShift(r, x, q);
    if y < x + t {
      FieldShift(r, y - t, q);
    }
  }

  lemma AddressBehind(r: Ring, o: nat)
    requires Proper(r) && HasAddress(r, o)
    ensures AddressAt(r, o) > o
  {
  }

  /** Fields with the same place on the track. */
  predicate SamePlace(r: Ring, x: nat, y: nat)
    requires Proper(r)
  {
    x % r.length == y % r.length
  }

  lemma TurnsApart(r: Ring, x: nat, y: nat) returns (q: nat)
    requires Proper(r) && SamePlace(r, x, y) && x <= y
    ensures y == x + r.length * q
  {
    var n := r.length;
    q := y / n - x / n;
    DivOrder(x, y, n);
    assert y == n * (y / n) + y % n && x == n * (x / n) + x % n;
    assert n * q == n * (y / n) - n * (x / n);
  }

  lemma DivOrder(x: nat, y: nat, n: nat)
    requires n > 0 && x <= y
    ensures x / n <= y / n
  {
    if x / n > y / n {
      DivParts(x, n);
      DivParts(y, n);
      Mono(y / n + 1, x / n, n);
    }
  }

  lemma SamePlaceAddress(r: Ring, o: nat, p: nat)
    requires Proper(r) && r.length > 1 && HasAddress(r, o) && SamePlace(r, o, p)
    ensures HasAddress(r, p) && SamePlace(r, AddressAt(r, o), AddressAt(r, p))
    ensures ByteAt(r, AddressAt(r, o) + 3) == ByteAt(r, AddressAt(r, p) + 3)
  {
    hide HasAddress, AddressAt, ByteAt;
    if o <= p {
      var q := TurnsApart(r, o, p);
      AddressShift(r, o, q, p - o);
      AddressBehind(r, o);
      Same(r.length, AddressAt(r, o), q);
      FieldShift(r, AddressAt(r, o), q);
    } else {
      var q := TurnsApart(r, p, o);
      AddressIsNext(r, o);
      AddressIsNext(r, p);
      AddressShift(r, p, q, o - p);
      AddressBehind(r, p);
      Same(r.length, AddressAt(r, p), q);
      FieldShift(r, AddressAt(r, p), q);
    }
  }

  /** The fields in their order from `from` on. */
  function Field(r: Ring, from: nat, n: nat): (x: nat)
    requires Proper(r) && r.length > 1 && AnyField(r)
    ensures x > from
  {
    var o := if n == 0 then from else Field(r, from, n - 1);
    AddressIsNext(r, o);
    AddressAt(r, o)
  }

  /** No field begins within the six bytes of another, or just behind them. */
  ghost predicate Apart(r: Ring)
    requires Proper(r)
  {
    r.length > 7 && forall x: nat, y: nat :: IsField(r, x) && x < y <= x + 7 ==> !IsField(r, y)
  }

  lemma FieldFacts(r: Ring, from: nat, n: nat)
    requires Proper(r) && r.length > 1 && AnyField(r)
    ensures IsField(r, Field(r, from, n)) && Field(r, from, n + 1) > Field(r, from, n)
    ensures forall y :: Field(r, from, n) < y < Field(r, from, n + 1) ==> !IsField(r, y)
    ensures Field(r, from, n + 1) <= Field(r, from, n) + r.length
  {
    hide IsField, AnyField, HasAddress, AddressAt;
    AddressIsNext(r, if n == 0 then from else Field(r, from, n - 1));
    AddressIsNext(r, Field(r, from, n));
    AddressBehind(r, Field(r, from, n));
  }

  /** Every field from the first on is reached. */
  lemma {:induction false} Reaches(r: Ring, from: nat, y: nat, n: nat) returns (m: nat)
    requires Proper(r) && r.length > 1 && AnyField(r) && IsField(r, y) && Field(r, from, n) <= y
    ensures m >= n && Field(r, from, m) == y
    decreases y - Field(r, from, n)
  {
    hide IsField, AnyField, Field;
    if Field(r, from, n) == y {
      m := n;
    } else {
      FieldFacts(r, from, n);
      m := Reaches(r, from, y, n + 1);
    }
  }

  lemma {:induction false} FieldsGrow(r: Ring, from: nat, m: nat, n: nat)
    requires Proper(r) && r.length > 1 && AnyField(r) && m <= n
    ensures Field(r, from, m) <= Field(r, from, n) && (m < n ==> Field(r, from, m) < Field(r, from, n))
    decreases n
  {
    hide IsField, AnyField, Field;
    if m >= n {
    } else {
      FieldsGrow(r, from, m, n - 1);
      FieldFacts(r, from, n - 1);
    }
  }

  /** The search is at the `n`-th field. */
  ghost predicate AtField(r: Ring, from: nat, n: nat)
    requires Proper(r) && r.length > 1 && AnyField(r)
  {
    var o := Visit(r, from, n);
    HasAddress(r, o) && SamePlace(r, AddressAt(r, o), Field(r, from, n))
    && Number(r, o) == ByteAt(r, Field(r, from, n) + 3)
    && Visit(r, from, n + 1) == (Field(r, from, n) + 7) % r.length
  }

  /** With the fields apart, the search visits them one after the other. */
  lemma {:induction false} VisitsFields(r: Ring, from: nat, n: nat)
    requires Proper(r) && Apart(r) && AnyField(r)
    ensures r.length > 7 && AtField(r, from, n)
  {
    hide AtField, AnyField, Apart;
    ApartLong(r);
    if n == 0 {
      AtFirst(r, from);
    } else {
      VisitsFields(r, from, n - 1);
      AtNext(r, from, n - 1);
    }
  }

  lemma AtFirst(r: Ring, from: nat)
    requires Proper(r) && r.length > 1 && AnyField(r)
    ensures AtField(r, from, 0)
  {
    hide IsField, AnyField, Visit, ByteAt, AddressAt, HasAddress, Field;
    FieldNone(r, from);
    VisitNone(r, from);
    VisitMore(r, from, 0);
  }

  lemma AtNext(r: Ring, from: nat, n: nat)
    requires Proper(r) && Apart(r) && AnyField(r) && r.length > 7 && AtField(r, from, n)
    ensures AtField(r, from, n + 1)
  {
    hide IsField, AnyField, Visit, ByteAt, AddressAt, HasAddress, Field, Apart, SamePlace, Number;
    var o := Visit(r, from, n + 1);
    NextVisit(r, Field(r, from, n), o);
    SkipsNone(r, from, n);
    VisitMore(r, from, n + 1);
    EndOf(r, AddressAt(r, o), Field(r, from, n + 1));
  }

  lemma FieldNone(r: Ring, from: nat)
    requires Proper(r) && r.length > 1 && AnyField(r)
    ensures HasAddress(r, from) && Field(r, from, 0) == AddressAt(r, from)
    ensures SamePlace(r, Field(r, from, 0), Field(r, from, 0))
  {
    hide IsField, AnyField, AddressAt, HasAddress;
    AddressIsNext(r, from);
  }

  /** What is found from the end of a field on, counted round or not. */
  lemma NextVisit(r: Ring, x: nat, o: nat)
    requires Proper(r) && r.length > 1 && AnyField(r) && o == (x + 7) % r.length
    ensures HasAddress(r, o) && HasAddress(r, x + 7) && SamePlace(r, AddressAt(r, o), AddressAt(r, x + 7))
    ensures Number(r, o) == ByteAt(r, AddressAt(r, x + 7) + 3)
  {
    hide IsField, AnyField, ByteAt, AddressAt, HasAddress;
    AddressIsNext(r, x + 7);
    ModTurn(r.length, x + 7, 0);
    SamePlaceAddress(r, x + 7, o);
  }

  lemma EndOf(r: Ring, x: nat, y: nat)
    requires Proper(r) && SamePlace(r, x, y)
    ensures (x + 7) % r.length == (y + 7) % r.length
  {
    ModTurn(r.length, x, 7);
    ModTurn(r.length, y, 7);
  }

  lemma SkipsNone(r: Ring, from: nat, n: nat)
    requires Proper(r) && Apart(r) && AnyField(r)
    ensures HasAddress(r, Field(r, from, n) + 7) && AddressAt(r, Field(r, from, n) + 7) == Field(r, from, n + 1)
  {
    hide IsField, AnyField, HasAddress, AddressAt, Field;
    var x, y := Field(r, from, n), Field(r, from, n + 1);
    FieldFacts(r, from, n);
    FieldFacts(r, from, n + 1);
    AddressIsNext(r, x + 7);
    AddressBehind(r, x + 7);
    var z := AddressAt(r, x + 7);
    assert y > x + 7;
    assert !(z < y) && !(y < z);
  }

  /** Some field carries the number. */
  ghost predicate Carried(r: Ring, sect: Byte)
    requires Proper(r)
  {
    exists x: nat :: IsField(r, x) && ByteAt(r, x + 3) == sect
  }

  predicate FirstCarrier(r: Ring, from: nat, sect: Byte, x: nat)
    requires Proper(r)
  {
    IsField(r, x) && from < x && ByteAt(r, x + 3) == sect
    && forall y :: from < y < x && IsField(r, y) ==> ByteAt(r, y + 3) != sect
  }

  /** After a whole turn the search is back at the first field. */
  lemma TurnBack(r: Ring, from: nat, sect: Byte) returns (n: nat)
    requires Proper(r) && Apart(r) && AnyField(r)
    ensures EndsAt(r, from, sect, n) && Field(r, from, n) == Field(r, from, 0) + r.length
  {
    hide IsField, AnyField, Visit, ByteAt, AddressAt, HasAddress, Number, Field;
    var x := Field(r, from, 0);
    FieldFacts(r, from, 0);
    FieldShift(r, x, 1);
    n := Reaches(r, from, x + r.length, 0);
    VisitsFields(r, from, 0);
    VisitsFields(r, from, n);
    Same(r.length, x, 1);
    EndOf(r, x, x + r.length);
  }

  lemma Distinct(length: nat, a: nat, b: nat)
    requires length > 0 && a < b < a + length
    ensures (a + 7) % length != (b + 7) % length
  {
    var c, d := a + 7, b + 7;
    if c % length == d % length {
      assert c == length * (c / length) + c % length && d == length * (d / length) + d % length;
      DivOrder(c, d, length);
      var q := d / length - c / length;
      assert length * q == d - c;
      if q >= 1 { Mono(1, q, length); }
    }
  }

  /** Before the search has stopped, it has passed no field with the number. */
  lemma Passed(r: Ring, from: nat, sect: Byte, n: nat)
    requires Proper(r) && Apart(r) && AnyField(r) && forall m :: 0 <= m < n ==> !EndsAt(r, from, sect, m)
    ensures forall y :: from < y < Field(r, from, n) && IsField(r, y) ==> ByteAt(r, y + 3) != sect
  {
    hide IsField, AnyField, Visit, ByteAt, AddressAt, HasAddress, Apart;
    ApartLong(r);
    forall y | from < y < Field(r, from, n) && IsField(r, y) ensures ByteAt(r, y + 3) != sect {
      FirstOne(r, from, y);
      var m := Reaches(r, from, y, 0);
      if m >= n { FieldsGrow(r, from, n, m); }
      VisitsFields(r, from, m);
      assert !EndsAt(r, from, sect, m);
    }
  }

  lemma FirstOne(r: Ring, from: nat, y: nat)
    requires Proper(r) && r.length > 1 && AnyField(r) && IsField(r, y) && from < y
    ensures Field(r, from, 0) <= y
  {
    hide IsField, AnyField, AddressAt, HasAddress;
    AddressIsNext(r, from);
  }

  /** A field that carries the number stops the search before it has come round. */
  lemma Stopped(r: Ring, from: nat, sect: Byte, last: nat) returns (m: nat)
    requires Proper(r) && Apart(r) && AnyField(r) && Carried(r, sect)
    requires Field(r, from, last) == Field(r, from, 0) + r.length
    ensures m < last && EndsAt(r, from, sect, m)
  {
    hide IsField, AnyField, Visit, ByteAt, AddressAt, HasAddress, Field, Apart;
    ApartLong(r);
    var x: nat :| IsField(r, x) && ByteAt(r, x + 3) == sect;
    var first := Field(r, from, 0);
    var y := Within(r, x, first - 1);
    m := Reaches(r, from, y, 0);
    if m >= last { FieldsGrow(r, from, last, m); }
    VisitsFields(r, from, m);
  }

  lemma ApartLong(r: Ring)
    requires Proper(r) && Apart(r)
    ensures r.length > 7
  {
  }

  lemma NotRound(r: Ring, from: nat, n: nat, last: nat)
    requires Proper(r) && Apart(r) && AnyField(r) && 0 < n < last
    requires Field(r, from, last) == Field(r, from, 0) + r.length
    ensures Visit(r, from, n + 1) != Visit(r, from, 1)
  {
    hide IsField, AnyField, Visit, ByteAt, AddressAt, HasAddress, Field, Apart;
    ApartLong(r);
    VisitsFields(r, from, 0);
    VisitsFields(r, from, n);
    FieldsGrow(r, from, 0, n);
    FieldsGrow(r, from, n, last);
    Distinct(r.length, Field(r, from, 0), Field(r, from, n));
  }

  lemma SearchFields(r: Ring, from: nat, sect: Byte)
    requires Proper(r) && Apart(r) && AnyField(r) && from < r.length
    ensures Ends(r, from, sect) && HasAddress(r, Visit(r, from, Stop(r, from, sect)))
    ensures Number(r, Visit(r, from, Stop(r, from, sect))) == sect <==> Carried(r, sect)
    ensures var o := Visit(r, from, Stop(r, from, sect));
            Carried(r, sect) ==> exists x: nat :: FirstCarrier(r, from, sect, x) && SamePlace(r, AddressAt(r, o), x)
  {
    hide IsField, AnyField, Visit, ByteAt, AddressAt, HasAddress, Number, Stop, Apart, Field, Carried, EndsAt;
    var last := TurnBack(r, from, sect);
    var n := Stop(r, from, sect);
    VisitsFields(r, from, n);
    ApartLong(r);
    FieldFacts(r, from, n);
    var x := Field(r, from, n);
    if Carried(r, sect) {
      var m := Stopped(r, from, sect, last);
      if n > 0 { NotRound(r, from, n, last); }
      ByNumber(r, from, sect, n);
      Passed(r, from, sect, n);
      assert FirstCarrier(r, from, sect, x);
    }
    if Number(r, Visit(r, from, n)) == sect { IsCarried(r, sect, x); }
  }

  lemma IsCarried(r: Ring, sect: Byte, x: nat)
    requires Proper(r) && IsField(r, x) && ByteAt(r, x + 3) == sect
    ensures Carried(r, sect)
  {
    hide IsField, ByteAt;
  }

  lemma ByNumber(r: Ring, from: nat, sect: Byte, n: nat)
    requires Proper(r) && EndsAt(r, from, sect, n) && HasAddress(r, Visit(r, from, n))
    requires n > 0 ==> Visit(r, from, n + 1) != Visit(r, from, 1)
    ensures Number(r, Visit(r, from, n)) == sect
  {
    hide Visit, HasAddress, Number;
  }

  lemma NoField(r: Ring, from: nat, sect: Byte)
    requires Proper(r) && r.length > 1 && !AnyField(r)
    ensures Ends(r, from, sect) && !HasAddress(r, Visit(r, from, Stop(r, from, sect))) && !Carried(r, sect)
  {
    hide IsField, HasAddress, Visit, Number, ByteAt;
    AddressIsNext(r, Visit(r, from, 0));
    assert EndsAt(r, from, sect, 0);
    AddressIsNext(r, Visit(r, from, Stop(r, from, sect)));
    if x: nat :| IsField(r, x) { var y := Within(r, x, 0); }
  }

  /** On a track whose fields are apart, every search comes to an end, wherever it begins, and so comes
      back if and only if the checksums on its way can be taken.  It finds the number if any field
      carries it; and then the first such field from where it began. */
  lemma SearchComplete(r: Ring, from: nat, sect: Byte)
    requires Proper(r) && Apart(r) && from < r.length
    ensures Ends(r, from, sect) && (ComesBack(r, from, sect) <==> SearchInBuffer(r, from, sect))
    ensures var o := Visit(r, from, Stop(r, from, sect));
            HasAddress(r, o) && Number(r, o) == sect <==> Carried(r, sect)
    ensures var o := Visit(r, from, Stop(r, from, sect));
            Carried(r, sect) ==> exists x: nat :: FirstCarrier(r, from, sect, x) && SamePlace(r, AddressAt(r, o), x)
  {
    hide IsField, AnyField, Visit, ByteAt, AddressAt, HasAddress, Number, Stop, Apart, Carried, SearchInBuffer;
    ApartLong(r);
    if AnyField(r) {
      SearchFields(r, from, sect);
    } else {
      NoField(r, from, sect);
    }
  }
}
