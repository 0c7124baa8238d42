/** The codewords of the sector's two parity layers: what makes one valid, and what completes one. */
module CdCodeword {
  import opened BitOps
  import opened CdGf

  /** The sum of the bytes of a codeword. */
  function Syndrome0(w: seq<Byte>): Byte {
    if w == [] then 0 else Add(Syndrome0(w[..|w| - 1]), w[|w| - 1])
  }

  /** The sum of the bytes, the last one times 1, the one before times alpha, and so on. */
  function Syndrome1(w: seq<Byte>): Byte {
    if w == [] then 0 else Add(TimesAlpha(Syndrome1(w[..|w| - 1])), w[|w| - 1])
  }

  ghost predicate IsCodeword(w: seq<Byte>) { Syndrome0(w) == 0 && Syndrome1(w) == 0 }

  /** The two parity bytes that complete some data. */
  function ParityBytes(w: seq<Byte>): (Byte, Byte) {
    var p := OverThree(Add(TimesAlpha(TimesAlpha(Syndrome1(w))), Syndrome0(w)));
    (p, Add(p, Syndrome0(w)))
  }

  lemma SyndromesSnoc(w: seq<Byte>, x: Byte)
    ensures Syndrome0(w + [x]) == Add(Syndrome0(w), x)
    ensures Syndrome1(w + [x]) == Add(TimesAlpha(Syndrome1(w)), x)
  {
    var v := w + [x];
    assert v[..|v| - 1] == w;
  }

  /** Data completed with two bytes is a codeword exactly when they are its parity bytes. */
  lemma ParityComplete(w: seq<Byte>, p: Byte, q: Byte)
    ensures IsCodeword(w + [p, q]) <==> (p, q) == ParityBytes(w)
  {
    hide Syndrome0, Syndrome1, TimesAlpha, OverThree, Add;
    assert w + [p, q] == (w + [p]) + [q];
    SyndromesSnoc(w, p);
    SyndromesSnoc(w + [p], q);
    ParityAlgebra(Syndrome0(w), TimesAlpha(Syndrome1(w)), p, q);
  }

  lemma ParityAlgebra(b: Byte, a: Byte, p: Byte, q: Byte)
    ensures (Add(Add(b, p), q) == 0 && Add(TimesAlpha(Add(a, p)), q) == 0)
       <==> (p == OverThree(Add(TimesAlpha(a), b)) && q == Add(p, b))
  {
    hide Xor, TimesAlpha, OverThree;
    var c, f := TimesAlpha(a), TimesAlpha(p);
    TimesAlphaAdd(a, p);
    // q is the sum of the other two terms in both equations
    XorEqual(Add(b, p), q);
    XorEqual(Add(c, f), q);
    XorComm(b, p);
    // both hold when (c + f) = (p + b), that is when p + f = c + b
    XorSwap(c, f, b, p);
    XorEqual(Add(c, f), Add(b, p));
    XorComm(f, p);
    XorEqual(Add(c, b), Add(p, f));
    // divide by 1 + alpha
    TimesOverThree(Add(c, b));
    if TimesThree(p) == Add(c, b) { TimesThreeInjective(p, OverThree(Add(c, b))); }
  }

  // ---------- as the standard has it ----------

  /** A byte times a power of alpha. */
  function TimesPower(x: Byte, n: nat): Byte {
    if n == 0 then x else TimesAlpha(TimesPower(x, n - 1))
  }

  /** The sum of all bytes, each times the power of alpha that counts the bytes behind it. */
  function Weighted(w: seq<Byte>): Byte {
    if w == [] then 0 else Add(TimesPower(w[0], |w| - 1), Weighted(w[1..]))
  }

  function Plain(w: seq<Byte>): Byte {
    if w == [] then 0 else Add(w[0], Plain(w[1..]))
  }

  /** The two equations of a codeword. */
  lemma Equations(w: seq<Byte>)
    ensures IsCodeword(w) <==> Plain(w) == 0 && Weighted(w) == 0
  {
    hide Add, TimesAlpha;
    Sums(w);
  }

  lemma {:induction false} Sums(w: seq<Byte>)
    ensures Syndrome0(w) == Plain(w) && Syndrome1(w) == Weighted(w)
    decreases |w|
  {
    hide Add, TimesAlpha;
    if w == [] {
    } else {
      Sums(w[..|w| - 1]);
      LastWeighted(w);
    }
  }

  lemma {:induction false} LastWeighted(w: seq<Byte>)
    requires w != []
    ensures var n := |w| - 1;
            Plain(w) == Add(Plain(w[..n]), w[n]) && Weighted(w) == Add(TimesAlpha(Weighted(w[..n])), w[n])
    decreases |w|
  {
    hide Add, TimesAlpha, TimesPower;
    var n := |w| - 1;
    if n == 0 {
      Single(w);
    } else {
      var x, rest := w[0], w[1..];
      LastWeighted(rest);
      assert w[..n][0] == x && w[..n][1..] == rest[..n - 1] && rest[n - 1] == w[n];
      PowerMore(x, n - 1);
      Regrouped(x, Plain(rest[..n - 1]), w[n]);
      LinearStep(TimesPower(x, n - 1), Weighted(rest[..n - 1]));
      Regrouped(TimesAlpha(TimesPower(x, n - 1)), TimesAlpha(Weighted(rest[..n - 1])), w[n]);
    }
  }

  lemma PowerMore(x: Byte, n: nat)
    ensures TimesPower(x, n + 1) == TimesAlpha(TimesPower(x, n))
  {
  }

  lemma Single(w: seq<Byte>)
    requires |w| == 1
    ensures Plain(w) == Add(Plain([]), w[0]) && Weighted(w) == Add(TimesAlpha(Weighted([])), w[0])
    ensures w[..0] == []
  {
    hide Xor;
    XorZero(0);
    XorZero(w[0]);
    XorSelf(0);
    TimesAlphaAdd(0, 0);
    XorSelf(TimesAlpha(0));
  }

  lemma Regrouped(x: Byte, y: Byte, z: Byte)
    ensures Add(x, Add(y, z)) == Add(Add(x, y), z)
  {
    hide Xor;
    XorAssoc(x, y, z);
  }

  lemma LinearStep(x: Byte, y: Byte)
    ensures TimesAlpha(Add(x, y)) == Add(TimesAlpha(x), TimesAlpha(y))
  {
    TimesAlphaAdd(x, y);
  }
}
