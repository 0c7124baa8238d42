/** Tracks on which the search for a sector goes round for ever, and all others. */
module FloppyRounds {
  import opened Numbers
  import opened BitOps
  import opened FloppySearch
  import opened FloppyFields

  /** Where the search goes on behind the field that begins at `x`. */
  function EndOfIt(r: Ring, x: nat): (e: nat)
    requires Proper(r)
    ensures e < r.length
  {
    (x + 7) % r.length
  }

  /** Going on from the end of some other field, or of itself, the search comes to field `x`. */
  ghost predicate Followed(r: Ring, x: nat)
    requires Proper(r)
  {
    exists y: nat :: y <= r.length && Leads(r, y, x)
  }

  predicate Leads(r: Ring, y: nat, x: nat)
    requires Proper(r)
  {
    IsField(r, y) && HasAddress(r, EndOfIt(r, y)) && SamePlace(r, AddressAt(r, EndOfIt(r, y)), x)
  }

  /** No field is one that the search never comes back to. */
  ghost predicate Chained(r: Ring)
    requires Proper(r)
  {
    forall x: nat :: x <= r.length && IsField(r, x) ==> Followed(r, x)
  }

  // ---------- a search that ends without a match has come round ----------

  /** If the search from just before a field ends, and not because of a number, it has come to that
      field from another. */
  lemma EndsFollowed(r: Ring, from: nat, sect: Byte, x: nat)
    requires Proper(r) && r.length > 1 && HasAddress(r, from) && AddressAt(r, from) == x
    requires Ends(r, from, sect) && !Carried(r, sect)
    ensures Followed(r, x)
  {
    hide IsField, HasAddress, AddressAt, Visit, Number, ByteAt, Carried, AnyField;
    AddressIsNext(r, from);
    var n: nat :| EndsAt(r, from, sect, n);
    var o := Visit(r, from, n);
    NumberCarried(r, o, sect);
    VisitNone(r, from);
    VisitMore(r, from, 0);
    VisitMore(r, from, n);
    assert n > 0;
    var p := Visit(r, from, n - 1);
    AddressIsNext(r, p);
    VisitMore(r, from, n - 1);
    SameEnd(r, AddressAt(r, o), x);
    LeadsHere(r, AddressAt(r, p), x);
  }

  lemma NumberCarried(r: Ring, o: nat, sect: Byte)
    requires Proper(r) && r.length > 1 && AnyField(r) && !Carried(r, sect)
    ensures HasAddress(r, o) && Number(r, o) != sect
  {
    hide IsField, HasAddress, AddressAt, ByteAt, Carried, AnyField;
    AddressIsNext(r, o);
    if Number(r, o) == sect { IsCarried(r, sect, AddressAt(r, o)); }
  }

  lemma LeadsHere(r: Ring, w: nat, x: nat)
    requires Proper(r) && IsField(r, w)
    requires HasAddress(r, (w + 7) % r.length) && SamePlace(r, AddressAt(r, (w + 7) % r.length), x)
    ensures Followed(r, x)
  {
    hide IsField, HasAddress, AddressAt;
    var y := Within(r, w, 0);
    EndOf(r, w, y);
    assert Leads(r, y, x);
  }

  lemma SameEnd(r: Ring, x: nat, y: nat)
    requires Proper(r) && (x + 7) % r.length == (y + 7) % r.length
    ensures SamePlace(r, x, y)
  {
    var n := r.length;
    if x <= y { Back(n, x + 7, y + 7); } else { Back(n, y + 7, x + 7); }
  }

  lemma Back(n: nat, c: nat, d: nat)
    requires n > 0 && 7 <= c <= d && c % n == d % n
    ensures (c - 7) % n == (d - 7) % n
  {
    assert c == n * (c / n) + c % n && d == n * (d / n) + d % n;
    DivOrder(c, d, n);
    var q := d / n - c / n;
    assert n * q == d - c;
    Same(n, c - 7, q);
  }

  // ---------- and if every field is followed, every search ends ----------

  /** Ends of fields, each of which leads to the one before it. */
  ghost predicate Trail(r: Ring, es: seq<nat>)
    requires Proper(r)
  {
    forall i :: 0 <= i < |es| ==>
      es[i] < r.length && EndOfField(r, es[i]) && (i > 0 ==> Visit(r, es[i], 1) == es[i - 1])
  }

  ghost predicate EndOfField(r: Ring, e: nat)
    requires Proper(r)
  {
    exists x: nat :: x <= r.length && IsField(r, x) && EndOfIt(r, x) == e
  }

  lemma {:induction false} TrailTo(r: Ring, e: nat, n: nat) returns (es: seq<nat>)
    requires Proper(r) && Chained(r) && e < r.length && EndOfField(r, e)
    ensures Trail(r, es) && |es| == n + 1 && es[0] == e
  {
    hide IsField, Visit, EndOfField, Chained;
    if n == 0 {
      es := [e];
    } else {
      es := TrailTo(r, e, n - 1);
      var f := Before(r, es[n - 1]);
      es := es + [f];
    }
  }

  lemma Before(r: Ring, e: nat) returns (f: nat)
    requires Proper(r) && Chained(r) && e < r.length && EndOfField(r, e)
    ensures f < r.length && EndOfField(r, f) && Visit(r, f, 1) == e
  {
    hide IsField, HasAddress, AddressAt, EndOfIt, SamePlace, Visit;
    var x: nat :| x <= r.length && IsField(r, x) && EndOfIt(r, x) == e;
    assert Followed(r, x);
    var y: nat :| y <= r.length && Leads(r, y, x);
    f := EndOfIt(r, y);
    VisitNone(r, f);
    OneOn(r, f, x);
  }

  lemma OneOn(r: Ring, o: nat, x: nat)
    requires Proper(r) && HasAddress(r, o) && SamePlace(r, AddressAt(r, o), x)
    ensures Visit(r, o, 1) == EndOfIt(r, x)
  {
    hide HasAddress, AddressAt, Visit;
    VisitNone(r, o);
    VisitMore(r, o, 0);
    EndOf(r, AddressAt(r, o), x);
  }

  lemma {:induction false} TrailBack(r: Ring, es: seq<nat>, i: nat, k: nat)
    requires Proper(r) && Trail(r, es) && k <= i < |es|
    ensures Visit(r, es[i], k) == es[i - k]
    decreases k
  {
    hide Visit;
    if k == 0 {
      VisitNone(r, es[i]);
    } else {
      TrailBack(r, es, i - 1, k - 1);
      VisitAdds(r, es[i], 1, k - 1);
    }
  }

  /** From the end of a field the search comes back to it. */
  lemma ReturnsTo(r: Ring, e: nat) returns (n: nat)
    requires Proper(r) && Chained(r) && e < r.length && EndOfField(r, e)
    ensures n > 0 && Visit(r, e, n) == e
  {
    hide Visit, IsField, Chained;
    var es := TrailTo(r, e, r.length);
    var i, j := Pigeons(es, r.length);
    n := j - i;
    TrailBack(r, es, i, i);
    TrailBack(r, es, j, n);
    VisitAdds(r, es[i], n, i);
    VisitAdds(r, es[i], i, n);
  }

  lemma ChainedEnds(r: Ring, from: nat, sect: Byte)
    requires Proper(r) && r.length > 1 && Chained(r)
    ensures Ends(r, from, sect)
  {
    hide Visit, IsField, Chained, HasAddress, AddressAt, AnyField, Number;
    VisitNone(r, from);
    AddressIsNext(r, from);
    if HasAddress(r, from) {
      VisitMore(r, from, 0);
      FieldEnd(r, from);
      var n := ReturnsTo(r, Visit(r, from, 1));
      VisitAdds(r, from, 1, n);
      assert EndsAt(r, from, sect, n);
    } else {
      assert EndsAt(r, from, sect, 0);
    }
  }

  lemma FieldEnd(r: Ring, o: nat)
    requires Proper(r) && r.length > 1 && HasAddress(r, o)
    ensures EndOfField(r, (AddressAt(r, o) + 7) % r.length)
  {
    hide IsField, HasAddress, AddressAt, AnyField;
    AddressIsNext(r, o);
    var y := Within(r, AddressAt(r, o), 0);
    EndOf(r, AddressAt(r, o), y);
  }

  // ---------- the condition ----------

  /** The search from field `x` on comes to it again, within as many fields as the track has bytes. */
  ghost predicate Returned(r: Ring, x: nat)
    requires Proper(r)
  {
    exists n :: 0 < n <= r.length && Visit(r, EndOfIt(r, x), n) == EndOfIt(r, x)
  }

  /** It comes to a field that carries the number: `x` itself, or another. */
  ghost predicate Met(r: Ring, x: nat, sect: Byte)
    requires Proper(r) && x >= 1
  {
    exists n :: 0 <= n <= r.length && CarrierAt(r, x, sect, n)
  }

  /** The `n`-th field from `x` on does. */
  predicate CarrierAt(r: Ring, x: nat, sect: Byte, n: nat)
    requires Proper(r) && x >= 1
  {
    var o := Visit(r, x - 1, n);
    HasAddress(r, o) && Number(r, o) == sect
  }

  /** Every field is one that the search comes to again, or has a carrier of the number on its way. */
  ghost predicate Settles(r: Ring, sect: Byte)
    requires Proper(r)
  {
    forall x: nat :: 1 <= x <= r.length && IsField(r, x) ==> Returned(r, x) || Met(r, x, sect)
  }

  /** From a field on: the search ends exactly if it comes to the field again, or to a carrier. */
  lemma EndsFromField(r: Ring, x: nat, sect: Byte)
    requires Proper(r) && r.length > 1 && 1 <= x <= r.length && IsField(r, x)
    ensures Ends(r, x - 1, sect) <==> Returned(r, x) || Met(r, x, sect)
  {
    hide IsField, HasAddress, AddressAt, Visit, Number, AnyField, EndOfIt;
    JustBefore(r, x);
    FirstEnd(r, x);
    if Ends(r, x - 1, sect) {
      EndsSoon(r, x - 1, sect);
      var n := Stop(r, x - 1, sect);
      AddressIsNext(r, x - 1);
      AddressIsNext(r, Visit(r, x - 1, n));
      if !CarrierAt(r, x, sect, n) { VisitAdds(r, x - 1, 1, n); }
    }
    if n :| 0 < n <= r.length && Visit(r, EndOfIt(r, x), n) == EndOfIt(r, x) {
      VisitAdds(r, x - 1, 1, n);
      assert EndsAt(r, x - 1, sect, n);
    }
    if n :| 0 <= n <= r.length && CarrierAt(r, x, sect, n) { assert EndsAt(r, x - 1, sect, n); }
  }

  lemma FirstEnd(r: Ring, x: nat)
    requires Proper(r) && r.length > 1 && 1 <= x <= r.length && IsField(r, x)
    ensures Visit(r, x - 1, 1) == EndOfIt(r, x)
  {
    hide IsField, HasAddress, AddressAt, Visit, AnyField, EndOfIt;
    JustBefore(r, x);
    SamePlaceIs(r, x, x);
    OneOn(r, x - 1, x);
  }

  /** A search goes as it does from just before the first field that it finds. */
  lemma FromTheField(r: Ring, from: nat, sect: Byte) returns (x: nat)
    requires Proper(r) && r.length > 1 && HasAddress(r, from)
    ensures 1 <= x <= r.length && IsField(r, x) && (Ends(r, from, sect) <==> Ends(r, x - 1, sect))
  {
    hide IsField, HasAddress, AddressAt, Visit, Number, AnyField, ByteAt, SamePlace, EndOfIt, EndsAt;
    AddressIsNext(r, from);
    x := Within(r, AddressAt(r, from), 0);
    JustBefore(r, x);
    SamePlaceIs(r, AddressAt(r, from), x);
    OneOn(r, from, x);
    FirstEnd(r, x);
    SameNumber(r, from, x);
    SameEnding(r, from, x - 1, sect);
  }

  lemma SameEnding(r: Ring, a: nat, b: nat, sect: Byte)
    requires Proper(r) && HasAddress(r, a) && HasAddress(r, b) && Number(r, a) == Number(r, b)
    requires Visit(r, a, 1) == Visit(r, b, 1)
    ensures Ends(r, a, sect) <==> Ends(r, b, sect)
  {
    hide HasAddress, Number, Visit, EndsAt;
    if n: nat :| EndsAt(r, a, sect, n) { SameEnds(r, a, b, sect, n); }
    if n: nat :| EndsAt(r, b, sect, n) { SameEnds(r, a, b, sect, n); }
  }

  lemma SameEnds(r: Ring, a: nat, b: nat, sect: Byte, n: nat)
    requires Proper(r) && HasAddress(r, a) && HasAddress(r, b) && Number(r, a) == Number(r, b)
    requires Visit(r, a, 1) == Visit(r, b, 1)
    ensures EndsAt(r, a, sect, n) <==> EndsAt(r, b, sect, n)
  {
    hide HasAddress, Number, Visit;
    VisitAdds(r, a, 1, n);
    VisitAdds(r, b, 1, n);
    if n == 0 {
      VisitNone(r, a);
      VisitNone(r, b);
    } else {
      VisitAdds(r, a, 1, n - 1);
      VisitAdds(r, b, 1, n - 1);
    }
  }

  lemma SamePlaceIs(r: Ring, x: nat, y: nat)
    requires Proper(r) && x % r.length == y % r.length
    ensures SamePlace(r, x, y)
  {
  }

  lemma SameNumber(r: Ring, from: nat, x: nat)
    requires Proper(r) && r.length > 1 && HasAddress(r, from)
    requires x >= 1 && HasAddress(r, x - 1) && AddressAt(r, x - 1) == x
    requires ByteAt(r, x + 3) == ByteAt(r, AddressAt(r, from) + 3)
    ensures Number(r, from) == Number(r, x - 1)
  {
  }

  /** Searches for a number come to an end from everywhere exactly when every field is returned to
      or has a carrier of the number on its way. */
  lemma AllEnd(r: Ring, sect: Byte)
    requires Proper(r) && r.length > 1
    ensures (forall from: nat :: from < r.length ==> Ends(r, from, sect)) <==> Settles(r, sect)
  {
    hide IsField, HasAddress, AddressAt, Ends, Returned, Met;
    if forall from: nat :: from < r.length ==> Ends(r, from, sect) {
      forall x: nat | 1 <= x <= r.length && IsField(r, x) ensures Returned(r, x) || Met(r, x, sect) {
        EndsFromField(r, x, sect);
        assert Ends(r, x - 1, sect);
      }
    }
    if Settles(r, sect) {
      forall from: nat | from < r.length ensures Ends(r, from, sect) {
        if HasAddress(r, from) {
          var x := FromTheField(r, from, sect);
          EndsFromField(r, x, sect);
        } else {
          NothingThere(r, from, sect);
        }
      }
    }
  }

  lemma NothingThere(r: Ring, from: nat, sect: Byte)
    requires Proper(r) && !HasAddress(r, from)
    ensures Ends(r, from, sect)
  {
    hide HasAddress;
    VisitNone(r, from);
    assert EndsAt(r, from, sect, 0);
  }

  /** And they come back from everywhere exactly if, besides, the checksum of every address field
      that is found from somewhere can be taken, and that of the data behind each carrier. */
  lemma AllComeBack(r: Ring, sect: Byte)
    requires Proper(r) && r.length > 1
    ensures (forall from: nat :: from < r.length ==> ComesBack(r, from, sect))
       <==> Settles(r, sect) && forall from: nat :: from < r.length ==> VisitInBuffer(r, from, sect, 0)
  {
    hide Ends, Settles, SearchInBuffer, VisitInBuffer;
    AllEnd(r, sect);
    if forall from: nat :: from < r.length ==> ComesBack(r, from, sect) {
      forall from: nat | from < r.length ensures Ends(r, from, sect) && VisitInBuffer(r, from, sect, 0) {
        assert ComesBack(r, from, sect);
        FirstInBuffer(r, from, sect);
      }
    }
    if Settles(r, sect) && forall from: nat :: from < r.length ==> VisitInBuffer(r, from, sect, 0) {
      forall from: nat | from < r.length ensures ComesBack(r, from, sect) { AllInBuffer(r, from, sect); }
    }
  }

  lemma FirstInBuffer(r: Ring, from: nat, sect: Byte)
    requires Proper(r) && SearchInBuffer(r, from, sect)
    ensures VisitInBuffer(r, from, sect, 0)
  {
    hide VisitInBuffer;
    StartsUnstopped(r, from, sect);
  }

  lemma AllInBuffer(r: Ring, from: nat, sect: Byte)
    requires Proper(r) && from < r.length && forall o: nat :: o < r.length ==> VisitInBuffer(r, o, sect, 0)
    ensures SearchInBuffer(r, from, sect)
  {
    hide FieldInBuffer, DataInBuffer, Visit, HasAddress, Number, Unstopped;
    VisitsBounded(r, from);
    VisitNone(r, from);
    forall n: nat ensures VisitInBuffer(r, from, sect, n) {
      var o := Visit(r, from, n);
      VisitNone(r, o);
      assert VisitInBuffer(r, o, sect, 0);
    }
  }

  /** Searches for a number that no field carries come to an end from everywhere exactly when every
      field is followed: when each is the next one behind the six bytes of some field. */
  lemma AllEndAbsent(r: Ring, sect: Byte)
    requires Proper(r) && r.length > 1 && !Carried(r, sect)
    ensures (forall from: nat :: from < r.length ==> Ends(r, from, sect)) <==> Chained(r)
  {
    hide IsField, HasAddress, AddressAt, AnyField, Carried, Followed;
    if forall from: nat :: from < r.length ==> Ends(r, from, sect) {
      forall x: nat | x <= r.length && IsField(r, x) ensures Followed(r, x) {
        JustBefore(r, x);
        assert Ends(r, x - 1, sect);
        EndsFollowed(r, x - 1, sect, x);
      }
    }
    if Chained(r) {
      forall from: nat | from < r.length ensures Ends(r, from, sect) { ChainedEnds(r, from, sect); }
    }
  }

  lemma JustBefore(r: Ring, x: nat)
    requires Proper(r) && r.length > 1 && x <= r.length && IsField(r, x)
    ensures x >= 1 && HasAddress(r, x - 1) && AddressAt(r, x - 1) == x
  {
    hide HasAddress, AddressAt;
    assert AnyField(r);
    AddressIsNext(r, x - 1);
    AddressBehind(r, x - 1);
  }

  // ---------- a track on which a search does not end ----------

  predicate In3(p: nat, a: nat, b: nat, c: nat) { p == a || p == b || p == c }

  /** Forty bytes with three address fields; the first begins within the last one's six bytes. */
  function Endless(): (r: Ring)
    ensures Proper(r) && r.length == 40
  {
    Ring(seq(1064, p requires 0 <= p => if In3(p, 2, 19, 37) then 0xA1 else if In3(p, 3, 20, 38) then 0xFE else 0),
         seq(1064, p requires 0 <= p => if In3(p, 2, 19, 37) then 0xFF else 0), 40)
  }

  lemma EndlessFields(x: nat)
    ensures IsField(Endless(), x) <==> x >= 1 && In3(x % 40, 3, 20, 38)
    ensures ByteAt(Endless(), x) != 1
  {
    if x >= 1 { ModTurn(40, x - 1, 1); }
  }

  lemma EndlessNext(o: nat, x: nat)
    requires o < x <= o + 40 && IsField(Endless(), x) && forall y :: o < y < x ==> !In3(y % 40, 3, 20, 38)
    ensures HasAddress(Endless(), o) && AddressAt(Endless(), o) == x
  {
    hide HasAddress, AddressAt, IsField;
    var z := Within(Endless(), x, 0);
    assert AnyField(Endless());
    AddressIsNext(Endless(), o);
    AddressBehind(Endless(), o);
    EndlessFields(AddressAt(Endless(), o));
  }

  /** The search for sector 1 from the beginning of it never ends. */
  lemma NeverEnds()
    ensures !Ends(Endless(), 0, 1)
  {
    hide HasAddress, AddressAt, IsField, Endless, ByteAt, AnyField;
    var r := Endless();
    forall x: nat ensures ByteAt(r, x) != 1 { EndlessFields(x); }
    EndlessFields(3);
    EndlessFields(20);
    EndlessFields(38);
    EndlessNext(0, 3);
    EndlessNext(10, 20);
    EndlessNext(27, 38);
    EndlessNext(5, 20);
    forall y: nat | y <= 40 ensures !Leads(r, y, 3) { EndlessFields(y); }
    if Ends(r, 0, 1) { EndsFollowed(r, 0, 1, 3); }
  }

  // ---------- a track on which a checksum cannot be taken ----------

  /** Forty bytes with one address field, whose mark is the last byte. */
  function Crossing(): (r: Ring)
    ensures Proper(r) && r.length == 40
  {
    Ring(seq(1064, p requires 0 <= p => if p == 39 then 0xA1 else if p == 0 then 0xFE else 0),
         seq(1064, p requires 0 <= p => if p == 39 then 0xFF else 0), 40)
  }

  /** The one search for its number ends after one field, but not before a checksum of nearly 2^32
      bytes has been asked for. */
  lemma CrcRunsOut()
    ensures var r := Crossing();
            Apart(r) && Ends(r, 0, 0) && HasAddress(r, 0) && First(r, 0, 40) == 39 && AddressAt(r, 0) == 40
            && CrcLength(39, 1, 4) == WRAP - 34 && !FieldInBuffer(r, 0) && !ComesBack(r, 0, 0)
  {
    hide IsField, HasAddress, AddressAt, First, Ends, Crossing;
    CrossingFields();
    SearchComplete(Crossing(), 0, 0);
    CrossingFirst();
    StartsUnstopped(Crossing(), 0, 0);
    VisitNone(Crossing(), 0);
  }

  lemma CrossingFields()
    ensures forall x: nat :: IsField(Crossing(), x) <==> x >= 1 && x % 40 == 0
    ensures Apart(Crossing())
  {
    forall x: nat ensures IsField(Crossing(), x) <==> x >= 1 && x % 40 == 0 {
      if x >= 1 { ModTurn(40, x - 1, 1); }
    }
  }

  lemma CrossingFirst()
    ensures HasAddress(Crossing(), 0) && First(Crossing(), 0, 40) == 39 && AddressAt(Crossing(), 0) == 40
  {
    hide Crossing, IsField, Hits;
    var r := Crossing();
    CrossingFields();
    HitBefore(r, 40);
    forall j: nat | j < 39 ensures !Hits(r, j) { NoMarkYet(j); }
    FirstIs(r, 0, 40, 39);
    AddressIsNext(r, 0);
    assert IsField(r, 40);
  }

  lemma NoMarkYet(j: nat)
    requires j < 39
    ensures !Hits(Crossing(), j)
  {
    hide Run, ByteAt;
    Small(j, 40);
  }
}
