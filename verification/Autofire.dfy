/** Autofire: rates as bit patterns over frames, and the table of held keys that they apply to. */
module Autofire {
  import opened Numbers
  import opened BitOps

  // ---------- patterns ----------

  /** A pattern: bit `i` says whether the button is down in frame `i` of the cycle. */
  datatype Rate = Rate(mask: nat, length: nat)

  predicate RateOk(r: Rate) { 1 <= r.length <= 64 }

  predicate Bit(mask: nat, i: nat) { Shr(mask, i) % 2 == 1 }

  /** `get_autofire_bit`, for a key that has been held for `frame` frames. */
  predicate Down(r: Rate, frame: nat)
    requires RateOk(r)
  {
    Bit(r.mask, Index(frame, r.length))
  }

  function Index(frame: nat, length: nat): (i: nat)
    requires length > 0
    ensures i < length
  {
    frame % length
  }

  lemma SameIndex(frame: nat, length: nat)
    requires length > 0
    ensures Index(frame + length, length) == Index(frame, length)
    ensures frame < length ==> Index(frame, length) == frame
  {
    ModStep(frame + length, length);
  }

  /** The ones among the lowest `n` bits. */
  function Ones(mask: nat, n: nat): (c: nat)
    ensures c <= n
  {
    if n == 0 then 0 else Ones(mask, n - 1) + if Bit(mask, n - 1) then 1 else 0
  }

  /** In how many of `n` frames from `from` on the button is down. */
  function FramesDown(r: Rate, from: nat, n: nat): (c: nat)
    requires RateOk(r)
    ensures c <= n
  {
    if n == 0 then 0 else FramesDown(r, from, n - 1) + if Down(r, from + n - 1) then 1 else 0
  }

  /** Any stretch of one cycle's length, wherever it begins, has the pattern's number of frames. */
  lemma {:induction false} Cycle(r: Rate, from: nat)
    requires RateOk(r)
    ensures FramesDown(r, from, r.length) == Ones(r.mask, r.length)
  {
    hide Bit, Index;
    if from == 0 {
      FromZero(r, r.length);
    } else {
      Cycle(r, from - 1);
      Shifted(r, from - 1, r.length);
      SameIndex(from - 1, r.length);
    }
  }

  lemma {:induction false} FromZero(r: Rate, n: nat)
    requires RateOk(r) && n <= r.length
    ensures FramesDown(r, 0, n) == Ones(r.mask, n)
  {
    hide Bit, Index;
    if n == 0 {
    } else {
      SameIndex(n - 1, r.length);
      FromZero(r, n - 1);
    }
  }

  /** One frame later: one leaves the stretch, one joins it. */
  lemma {:induction false} Shifted(r: Rate, from: nat, n: nat)
    requires RateOk(r)
    ensures FramesDown(r, from + 1, n) + (if Down(r, from) then 1 else 0)
         == FramesDown(r, from, n) + (if Down(r, from + n) then 1 else 0)
  {
    hide Down;
    if n == 0 {
    } else {
      Shifted(r, from, n - 1);
    }
  }

  // ---------- rates in hertz ----------

  function Ceiling(x: real): int {
    if x == x.Floor as real then x.Floor else x.Floor + 1
  }

  /** `mask_from_hertz`: an empty cycle for rates that are not above zero. */
  function FromHertz(hz: real): (r: Rate)
    ensures RateOk(r) <==> hz > 0.0
  {
    if hz <= 0.0 then Rate(0, 0) else FromQuotient(60.0 / Limited(hz))
  }

  function Limited(hz: real): real { if hz > 30.0 then 30.0 else hz }

  /** The second half of it: the rate for so many frames a cycle, as the division has rounded them. */
  function FromQuotient(q: real): (r: Rate)
    ensures RateOk(r) && r.length >= 2
  {
    var p0 := Ceiling(q);
    var p := if p0 < 2 then 2 else if p0 > 64 then 64 else p0;
    PowerPositive(p / 2);
    Rate(Shl(1, p / 2) - 1, p)
  }

  /** The button is down for half of every cycle, rounded down, and never longer than a cycle less
      a frame. */
  lemma HalfDown(q: real, from: nat)
    ensures var r := FromQuotient(q); r.length >= 2 && FramesDown(r, from, r.length) == r.length / 2
  {
    var r := FromQuotient(q);
    Cycle(r, from);
    LowOnes(r.length / 2, r.length);
  }

  /** The rate is never faster than the one asked for, nor than 30 a second, unless it is slower than
      the longest cycle, of 64 frames, can be; and if the division has rounded down, it is faster by
      no larger a part than was lost. */
  lemma NotFaster(hz: real, q: real, lost: real)
    requires hz > 0.0 && lost >= 0.0 && q >= 60.0 / Limited(hz) * (1.0 - lost)
    ensures var r := FromQuotient(q); r.length == 64 || r.length as real * Limited(hz) >= 60.0 * (1.0 - lost)
  {
    var h := Limited(hz);
    var x := 60.0 / h * (1.0 - lost);
    Undivided(h, lost);
    assert Ceiling(q) as real >= q;
    var n := FromQuotient(q).length as real;
    if FromQuotient(q).length < 64 { Scaled(n, x, h); }
  }

  /** The cycle is the shortest of at least two frames, and at most 64, that is as long as asked for. */
  lemma ShortestCycle(q: real)
    ensures var p := FromQuotient(q).length;
            2 <= p <= 64 && (p < 64 ==> p as real >= q) && (p > 2 ==> (p - 1) as real < q)
  {
  }

  /** In hertz: no shorter cycle would do for a rate that can be had. */
  lemma FastestBelow(hz: real)
    requires hz > 0.0
    ensures RateOk(FromHertz(hz)) && (hz >= 30.0 ==> FromHertz(hz) == Rate(1, 2))
    ensures hz <= 30.0 ==>
              var p := FromHertz(hz).length;
              (p > 2 ==> Frames(p - 1, hz) < 60.0) && (p < 64 ==> Frames(p, hz) >= 60.0)
  {
    hide FromQuotient, Frames;
    if hz >= 30.0 { Thirty(); }
    if hz <= 30.0 {
      var q := 60.0 / hz;
      ShortestCycle(q);
      Compared(q, hz, FromQuotient(q).length);
    }
  }

  /** How many frames a second `p` frames a cycle make. */
  function Frames(p: int, hz: real): real { p as real * hz }

  lemma Thirty()
    ensures FromQuotient(60.0 / 30.0) == Rate(1, 2) && Limited(30.0) == 30.0
  {
    assert Shl(1, 1) == 2;
  }

  lemma Compared(q: real, h: real, p: int)
    requires h > 0.0 && q == 60.0 / h
    ensures p as real >= q ==> Frames(p, h) >= 60.0
    ensures (p - 1) as real < q ==> Frames(p - 1, h) < 60.0
  {
    hide Frames;
    Product(h);
    if p as real >= q { Slower(p, q, h); }
    if (p - 1) as real < q { Faster(p - 1, q, h); }
  }

  lemma Product(h: real)
    requires h > 0.0
    ensures 60.0 / h * h == 60.0
  {
  }

  lemma Slower(p: int, q: real, h: real)
    requires h > 0.0 && p as real >= q
    ensures Frames(p, h) >= q * h
  {
    Scaled(p as real, q, h);
  }

  lemma Faster(p: int, q: real, h: real)
    requires h > 0.0 && (p as real) < q
    ensures Frames(p, h) < q * h
  {
    var n := p as real;
    assert (q - n) * h > 0.0;
  }

  /** Ten a second: down for three frames and up for three. */
  lemma TenHertz()
    ensures FromHertz(10.0) == Rate(7, 6)
  {
    assert 60.0 / Limited(10.0) == 6.0;
    assert Shl(1, 3) == 8;
  }

  /** The button goes down at once, and stays down for the first half of each cycle. */
  lemma DownFirst(q: real, frame: nat)
    ensures var r := FromQuotient(q); Down(r, frame) <==> frame % r.length < r.length / 2
  {
    var r := FromQuotient(q);
    LowBit(r.length / 2, frame % r.length);
  }

  lemma Undivided(h: real, lost: real)
    requires h > 0.0
    ensures 60.0 / h * (1.0 - lost) * h == 60.0 * (1.0 - lost)
  {
    var x := 60.0 / h;
    assert x * h == 60.0;
    assert x * (1.0 - lost) * h == x * h * (1.0 - lost);
  }

  lemma Scaled(n: real, x: real, h: real)
    requires n >= x && h > 0.0
    ensures n * h >= x * h
  {
  }

  lemma {:induction false} LowOnes(w: nat, n: nat)
    requires w <= n
    ensures Shl(1, w) > 0 && Ones(Shl(1, w) - 1, n) == w
  {
    PowerPositive(w);
    if n == 0 {
    } else {
      LowBit(w, n - 1);
      if n > w { LowOnes(w, n - 1); } else { OnesBelow(w, n - 1); }
    }
  }

  lemma {:induction false} LowBit(w: nat, i: nat)
    ensures Shl(1, w) > 0 && (Bit(Shl(1, w) - 1, i) <==> i < w)
  {
    hide Bit;
    PowerPositive(w);
    BitDown(Shl(1, w) - 1, i);
    if w == 0 {
      NoBit(i);
    } else if i > 0 {
      PowerPositive(w - 1);
      assert (Shl(1, w) - 1) / 2 == Shl(1, w - 1) - 1;
      LowBit(w - 1, i - 1);
    }
  }

  /** A bit of a number is a bit of its half. */
  lemma BitDown(v: nat, i: nat)
    ensures Bit(v, i) <==> if i == 0 then v % 2 == 1 else Bit(v / 2, i - 1)
  {
    if i > 0 { ShrHalf(v, i); }
  }

  lemma NoBit(i: nat)
    ensures !Bit(0, i)
  {
    ShrZero(i);
  }

  lemma {:induction false} OnesBelow(w: nat, n: nat)
    requires n <= w
    ensures Shl(1, w) > 0 && Ones(Shl(1, w) - 1, n) == n
  {
    PowerPositive(w);
    if n == 0 {
    } else {
      LowBit(w, n - 1);
      OnesBelow(w, n - 1);
    }
  }

  // ---------- patterns written out ----------

  predicate IsPattern(s: string) { 1 <= |s| <= 64 && forall i :: 0 <= i < |s| ==> s[i] == '0' || s[i] == '1' }

  /** The number whose binary digits are `s`. */
  function Value(s: string): nat {
    if s == [] then 0 else 2 * Value(s[..|s| - 1]) + if s[|s| - 1] == '1' then 1 else 0
  }

  /** `parse_autofire_literal`. */
  method ParseLiteral(token: string) returns (ok: bool, r: Rate)
    ensures ok <==> |token| >= 2 && token[0] == '0' && (token[1] == 'b' || token[1] == 'B') && IsPattern(token[2..])
    ensures ok ==> r == Rate(Value(token[2..]), |token| - 2)
  {
    r := Rate(0, 0);
    if |token| < 2 || token[0] != '0' { return false, r; }
    if token[1] != 'b' && token[1] != 'B' { return false, r; }
    if |token| == 2 { return false, r; }
    var mask, len := 0, 0;
    ghost var s := token[2..];
    while len < |token| - 2
      invariant len <= |s| && len <= 64 && mask == Value(s[..len])
      invariant forall i :: 0 <= i < len ==> s[i] == '0' || s[i] == '1'
    {
      var c := token[2 + len];
      assert c == s[len];
      if c != '0' && c != '1' { return false, r; }
      if len >= 64 { return false, r; }
      assert s[..len + 1][..len] == s[..len];
      mask := 2 * mask + if c == '1' then 1 else 0;
      len := len + 1;
    }
    assert s[..len] == s;
    return true, Rate(mask, len);
  }

  /** The lowest `n` bits, the highest first. */
  function Digits(value: nat, n: nat): (s: string)
    ensures |s| == n
  {
    if n == 0 then [] else [if Bit(value, n - 1) then '1' else '0'] + Digits(value, n - 1)
  }

  /** `bits_to_str`. */
  method BitsToStr(value: nat, length: int) returns (s: string)
    ensures s == Digits(value, if length < 0 then 0 else Min(length, 64))
  {
    var max := length;
    if max < 0 { max := 0; }
    if max > 64 { max := 64; }
    s := [];
    var i := max - 1;
    while i >= 0
      invariant -1 <= i < max
      invariant Digits(value, max) == s + Digits(value, i + 1)
    {
      s := s + [if Bit(value, i) then '1' else '0'];
      i := i - 1;
    }
  }

  /** What was written as a pattern is shown as that pattern, and its ones are its frames. */
  lemma {:induction false} PatternShown(s: string)
    requires forall i :: 0 <= i < |s| ==> s[i] == '0' || s[i] == '1'
    ensures Digits(Value(s), |s|) == s
  {
    forall i | 0 <= i < |s| ensures Digits(Value(s), |s|)[i] == s[i] {
      DigitAt(Value(s), |s|, i);
      ValueBit(s, |s| - 1 - i);
    }
  }

  lemma {:induction false} DigitAt(value: nat, n: nat, i: nat)
    requires i < n
    ensures Digits(value, n)[i] == if Bit(value, n - 1 - i) then '1' else '0'
  {
    hide Bit;
    if i == 0 {
    } else {
      DigitAt(value, n - 1, i - 1);
    }
  }

  lemma {:induction false} ValueBit(s: string, k: nat)
    requires k < |s|
    ensures Bit(Value(s), k) <==> s[|s| - 1 - k] == '1'
  {
    hide Bit;
    var rest := Value(s[..|s| - 1]);
    assert Value(s) == 2 * rest + if s[|s| - 1] == '1' then 1 else 0;
    BitDown(Value(s), k);
    if k == 0 {
    } else {
      assert Value(s) / 2 == rest;
      ValueBit(s[..|s| - 1], k - 1);
    }
  }

  /** A pattern is gone through from its last digit to its first. */
  lemma LiteralDown(s: string, frame: nat)
    requires IsPattern(s)
    ensures Down(Rate(Value(s), |s|), frame) <==> s[|s| - 1 - frame % |s|] == '1'
  {
    hide Bit;
    ValueBit(s, frame % |s|);
  }
}
