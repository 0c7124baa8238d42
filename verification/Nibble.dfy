/** The disk nibble format: 6-and-2 coding of a page, the fields of a track, and a reader that
    finds its way by the marks alone. */
module Nibble {
  import opened BitOps

  // ---------- six bits to a disk byte ----------

  /** The disk byte for six bits: the 64 usable bytes in increasing order (`GCR_encoding_table`). */
  function Gcr(n: nat): (b: Byte)
    requires n < 64
    ensures b >= 0x96 && b != 0xAA && b != 0xD5
  {
    if n < 2 then 0x96 + n
    else if n < 4 then 0x9A + (n - 2)
    else if n < 7 then 0x9D + (n - 4)
    else if n < 9 then 0xA6 + (n - 7)
    else if n < 14 then 0xAB + (n - 9)
    else if n < 20 then 0xB2 + (n - 14)
    else if n < 27 then 0xB9 + (n - 20)
    else if n < 28 then 0xCB
    else if n < 31 then 0xCD + (n - 28)
    else if n < 32 then 0xD3
    else if n < 34 then 0xD6 + (n - 32)
    else if n < 41 then 0xD9 + (n - 34)
    else if n < 44 then 0xE5 + (n - 41)
    else if n < 51 then 0xE9 + (n - 44)
    else if n < 57 then 0xF2 + (n - 51)
    else 0xF9 + (n - 57)
  }

  /** The six bits of a disk byte, or 64 for a byte that stands for none. */
  function UnGcr(b: Byte): (n: nat)
    ensures n <= 64
  {
    if 0x96 <= b <= 0x97 then b - 0x96
    else if 0x9A <= b <= 0x9B then b - 0x9A + 2
    else if 0x9D <= b <= 0x9F then b - 0x9D + 4
    else if 0xA6 <= b <= 0xA7 then b - 0xA6 + 7
    else if 0xAB <= b <= 0xAF then b - 0xAB + 9
    else if 0xB2 <= b <= 0xB7 then b - 0xB2 + 14
    else if 0xB9 <= b <= 0xBF then b - 0xB9 + 20
    else if b == 0xCB then 27
    else if 0xCD <= b <= 0xCF then b - 0xCD + 28
    else if b == 0xD3 then 31
    else if 0xD6 <= b <= 0xD7 then b - 0xD6 + 32
    else if 0xD9 <= b <= 0xDF then b - 0xD9 + 34
    else if 0xE5 <= b <= 0xE7 then b - 0xE5 + 41
    else if 0xE9 <= b <= 0xEF then b - 0xE9 + 44
    else if 0xF2 <= b <= 0xF7 then b - 0xF2 + 51
    else if 0xF9 <= b then b - 0xF9 + 57
    else 64
  }

  lemma GcrUndone(n: nat)
    requires n < 64
    ensures UnGcr(Gcr(n)) == n
  {
  }

  // ---------- 6-and-2 ----------

  /** The lower two bits of a byte, swapped (`Swap_Bit`). */
  function Swapped(b: Byte): (s: nat)
    ensures s < 4
  {
    if b % 4 == 1 then 2 else if b % 4 == 2 then 1 else b % 4
  }

  /** Entry `j` of the secondary buffer: the low bits of three bytes, 86 apart. */
  function Low(page: Page, j: nat): (v: nat)
    requires j < 86
    ensures v < 64
  {
    16 * Swapped(page[if j < 2 then 1 - j else 257 - j]) + 4 * Swapped(page[171 - j]) + Swapped(page[85 - j])
  }

  function Lows(page: Page): (s: seq<nat>)
    ensures |s| == 86 && forall j :: 0 <= j < 86 ==> s[j] == Low(page, j) < 64
  {
    seq(86, j requires 0 <= j < 86 => Low(page, j))
  }

  function Highs(page: Page): (s: seq<nat>)
    ensures |s| == 256 && forall i :: 0 <= i < 256 ==> s[i] == page[i] / 4 < 64
  {
    seq(256, i requires 0 <= i < 256 => page[i] / 4)
  }

  /** Putting a byte together again from the two buffers. */
  function JoinByte(lows: seq<nat>, highs: seq<nat>, i: nat): (b: Byte)
    requires |lows| == 86 && |highs| == 256 && i < 256
    requires forall j :: 0 <= j < 86 ==> lows[j] < 64
    requires forall j :: 0 <= j < 256 ==> highs[j] < 64
  {
    var two := if i < 86 then lows[85 - i] % 4 else if i < 172 then lows[171 - i] / 4 % 4 else lows[257 - i] / 16;
    4 * highs[i] + Swapped(two)
  }

  function JoinPage(lows: seq<nat>, highs: seq<nat>): (p: Page)
    requires |lows| == 86 && |highs| == 256
    requires forall j :: 0 <= j < 86 ==> lows[j] < 64
    requires forall j :: 0 <= j < 256 ==> highs[j] < 64
  {
    seq(256, i requires 0 <= i < 256 => JoinByte(lows, highs, i))
  }

  lemma LowDigits(page: Page, j: nat)
    requires j < 86
    ensures Low(page, j) % 4 == Swapped(page[85 - j])
    ensures Low(page, j) / 4 % 4 == Swapped(page[171 - j])
    ensures Low(page, j) / 16 == Swapped(page[if j < 2 then 1 - j else 257 - j])
  {
    var a, b, c := Swapped(page[if j < 2 then 1 - j else 257 - j]), Swapped(page[171 - j]), Swapped(page[85 - j]);
    assert Low(page, j) / 4 == 4 * a + b;
  }

  /** The two buffers hold the whole page. */
  lemma JoinSplit(page: Page)
    ensures JoinPage(Lows(page), Highs(page)) == page
  {
    hide Low;
    forall i | 0 <= i < 256 ensures JoinByte(Lows(page), Highs(page), i) == page[i] {
      LowDigits(page, if i < 86 then 85 - i else if i < 172 then 171 - i else 257 - i);
    }
  }

  // ---------- running sums ----------

  /** Each value summed with the one before it. */
  function Chained(s: seq<nat>, last: nat): (r: seq<nat>)
    ensures |r| == |s|
  {
    if s == [] then [] else [Xor(last, s[0])] + Chained(s[1..], s[0])
  }

  function Unchained(r: seq<nat>, last: nat): (s: seq<nat>)
    ensures |s| == |r|
  {
    if r == [] then [] else [Xor(last, r[0])] + Unchained(r[1..], Xor(last, r[0]))
  }

  lemma {:induction false} ChainUndone(s: seq<nat>, last: nat)
    ensures Unchained(Chained(s, last), last) == s
  {
    hide Xor;
    if s == [] {
    } else {
      XorCancel(last, s[0]);
      ChainUndone(s[1..], s[0]);
    }
  }

  lemma {:induction false} ChainFits(s: seq<nat>, last: nat)
    requires last < 64 && forall i :: 0 <= i < |s| ==> s[i] < 64
    ensures forall i :: 0 <= i < |s| ==> Chained(s, last)[i] < 64
  {
    hide Xor, Shl;
    if s == [] {
    } else {
      Sixty4();
      XorBelow(last, s[0], 6);
      ChainFits(s[1..], s[0]);
    }
  }

  lemma Sixty4()
    ensures Shl(1, 6) == 64
  {
    assert Shl(1, 2) == 4;
    assert Shl(1, 4) == 16;
  }

  // ---------- fields ----------

  function Reversed(s: seq<nat>): (r: seq<nat>)
    ensures |r| == |s| && forall i :: 0 <= i < |s| ==> r[i] == s[|s| - 1 - i]
  {
    seq(|s|, i requires 0 <= i < |s| => s[|s| - 1 - i])
  }

  function Nibbles(s: seq<nat>): (r: seq<Byte>)
    requires forall i :: 0 <= i < |s| ==> s[i] < 64
    ensures |r| == |s| && forall i :: 0 <= i < |s| ==> r[i] == Gcr(s[i])
  {
    seq(|s|, i requires 0 <= i < |s| => Gcr(s[i]))
  }

  function UnNibbles(r: seq<Byte>): (s: seq<nat>)
    ensures |s| == |r| && forall i :: 0 <= i < |r| ==> s[i] == UnGcr(r[i])
  {
    seq(|r|, i requires 0 <= i < |r| => UnGcr(r[i]))
  }

  /** The 342 values of a page in the order in which they are written, and a zero that makes the
      running sum end with the last of them. */
  function Values(page: Page): (v: seq<nat>)
    ensures |v| == 343 && forall i :: 0 <= i < 343 ==> v[i] < 64
  {
    Reversed(Lows(page)) + Highs(page) + [0]
  }

  function DataNibbles(page: Page): (r: seq<Byte>)
    ensures |r| == 343 && forall i :: 0 <= i < 343 ==> r[i] != 0xD5 && r[i] != 0xAA
  {
    ChainFits(Values(page), 0);
    Nibbles(Chained(Values(page), 0))
  }

  const EPILOGUE: seq<Byte> := [0xDE, 0xAA, 0xEB]

  function DataField(page: Page): (r: seq<Byte>)
    ensures |r| == 349
  {
    [0xD5, 0xAA, 0xAD] + DataNibbles(page) + EPILOGUE
  }

  /** 4-and-4 coding: the odd bits, then the even bits, each among ones (`FM_encode`). */
  function Fm(d: Byte): (r: seq<Byte>)
    ensures |r| == 2 && r[0] != 0xD5 && r[1] != 0xD5
    ensures UnFm(r[0], r[1]) == d
  {
    OrAA(d / 2);
    OrAA(d);
    EvenHalf(d);
    [Or(d / 2, 0xAA), Or(d, 0xAA)]
  }

  /** The bits of even weight. */
  function Even(d: nat): nat { if d == 0 then 0 else 4 * Even(d / 4) + d % 2 }

  function UnFm(a: Byte, b: Byte): int { 2 * (a - 0xAA as int) + (b - 0xAA as int) }

  lemma OrAA(d: Byte)
    ensures Or(d, 0xAA) == 0xAA + Even(d) && Even(d) <= 0x55
    ensures Or(d, 0xAA) < 256 && Or(d, 0xAA) != 0xD5
  {
    hide Or, Even;
    OrStep(d / 64, 0); OrStep(d / 4 / 4, 2); OrStep(d / 4, 10); OrStep(d, 42);
    OrZero(d / 64 / 4);
    EvenStep(d / 64); EvenStep(d / 4 / 4); EvenStep(d / 4); EvenStep(d);
    EvenZero();
    assert d / 4 / 4 / 4 == d / 64 && d / 64 / 4 == 0;
  }

  lemma OrStep(x: nat, y: nat)
    ensures Or(x, 4 * y + 2) == 4 * Or(x / 4, y) + 2 + x % 2
  {
    hide Or;
    OrHalf(x, 4 * y + 2);
    OrHalf(x / 2, 2 * y + 1);
    assert x / 2 / 2 == x / 4;
  }

  lemma EvenStep(x: nat)
    ensures Even(x) == 4 * Even(x / 4) + x % 2
  {
  }

  lemma EvenZero()
    ensures Even(0) == 0
  {
  }

  lemma OrHalf(a: nat, b: nat)
    ensures Or(a, b) == 2 * Or(a / 2, b / 2) + (if a % 2 == 1 || b % 2 == 1 then 1 else 0)
  {
    OrZero(a / 2);
    OrZero(b / 2);
  }

  lemma OrZero(a: nat)
    ensures Or(a, 0) == a && Or(0, a) == a
  {
  }

  /** A number is its odd bits and its even bits. */
  lemma {:induction false} EvenHalf(d: nat)
    ensures d == 2 * Even(d / 2) + Even(d)
  {
    hide Even;
    if d == 0 {
      EvenZero();
    } else {
      EvenHalf(d / 4);
      EvenStep(d);
      EvenStep(d / 2);
      assert d / 2 / 4 == d / 4 / 2;
    }
  }
}
