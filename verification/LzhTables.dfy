/** What the tables of the unpacker and its start tree are, told from outside: the one canonical code
    of given lengths, and the one tree of equal weights. */
module LzhTables {
  import opened BitOps
  import opened LzhTree
  import opened LzhRebuild
  import opened LzhUpdate
  import opened LzhBits
  import opened LzhCodec
  import opened LzhUnpack

  // ---------- the position code ----------

  /** The lengths of the position code: 1, 3, 8, 12, 24 and 16 upper parts of 3 to 8 bits. */
  function LengthOf(c: nat): (l: nat)
    ensures 3 <= l <= 8
  {
    if c < 1 then 3
    else if c < 1 + 3 then 4
    else if c < 1 + 3 + 8 then 5
    else if c < 1 + 3 + 8 + 12 then 6
    else if c < 1 + 3 + 8 + 12 + 24 then 7
    else 8
  }

  /** The eight-bit patterns that begin with the code of an upper part: 2^(8 - length) of them. */
  function Patterns(c: nat): nat { Shl(1, 8 - LengthOf(c)) }

  /** The patterns of all upper parts before `c`. */
  function PatternsBefore(c: nat): nat {
    if c == 0 then 0 else PatternsBefore(c - 1) + Patterns(c - 1)
  }

  lemma PatternCounts(c: nat)
    ensures Patterns(c) == if c < 1 then 32 else if c < 4 then 16 else if c < 12 then 8 else if c < 24 then 4
                           else if c < 48 then 2 else 1
  {
    Powers8();
  }

  lemma Powers8()
    ensures Shl(1, 0) == 1 && Shl(1, 1) == 2 && Shl(1, 2) == 4 && Shl(1, 3) == 8 && Shl(1, 4) == 16 && Shl(1, 5) == 32
  {
    assert Shl(1, 1) == 2;
    assert Shl(1, 2) == 4;
    assert Shl(1, 3) == 8;
    assert Shl(1, 4) == 16;
    assert Shl(1, 5) == 32;
  }

  lemma {:induction false} PatternsAre(c: nat)
    requires c <= 64
    ensures PatternsBefore(c) == if c < 1 then 0 else if c < 4 then 0x20 + 16 * (c - 1)
                                 else if c < 12 then 0x50 + 8 * (c - 4)
                                 else if c < 24 then 0x90 + 4 * (c - 12) else if c < 48 then 0xC0 + 2 * (c - 24)
                                 else 0xF0 + (c - 48)
  {
    hide Patterns;
    if c == 0 {
    } else {
      PatternsAre(c - 1);
      PatternCounts(c - 1);
    }
  }

  /** The two tables are the canonical code of those lengths: the upper parts follow one another, each
      has all the patterns that begin with its code and no others, and no pattern is left over. */
  lemma CanonicalCode(i: nat, c: nat)
    requires i < 256 && c < 64
    ensures DCode(i) == c <==> PatternsBefore(c) <= i < PatternsBefore(c) + Patterns(c)
    ensures DCode(i) == c ==> DLen(i) == LengthOf(c)
    ensures FirstPattern(c) == PatternsBefore(c) && PatternsBefore(64) == 256
  {
    hide Patterns, PatternsBefore;
    PatternsAre(c);
    PatternsAre(64);
    PatternCounts(c);
  }

  /** Whatever follows the code in a pattern, the code is the same. */
  lemma NoPatternUnused(i: nat)
    requires i < 256
    ensures Shr(i, 8 - DLen(i)) == Shr(FirstPattern(DCode(i)), 8 - DLen(i))
  {
    var c := DCode(i);
    var l := LengthOf(c);
    CanonicalCode(i, c);
    PatternCounts(c);
    ShrParts(i, 8 - l);
    ShrParts(FirstPattern(c), 8 - l);
  }

  lemma ShrParts(v: nat, n: nat)
    requires n <= 5
    ensures Shr(v, n) == v / (if n == 0 then 1 else if n == 1 then 2 else if n == 2 then 4 else if n == 3 then 8
                              else if n == 4 then 16 else 32)
  {
    assert Shr(v, 1) == v / 2;
    assert Shr(v, 2) == v / 4;
    assert Shr(v, 3) == v / 8;
    assert Shr(v, 4) == v / 16;
  }

  /** A position is the upper part that eight bits show, and the six bits behind its code. */
  lemma PositionParts(src: seq<Byte>, p: nat)
    ensures BitsValue(src, p, 8) < 256
    ensures var i := BitsValue(src, p, 8);
            ReadPosition(src, p) == (64 * DCode(i) + BitsValue(src, p + DLen(i), 6), p + DLen(i) + 6)
  {
    hide DCode, DLen, BitsValue;
    Powers(1);
    LastSix(src, p, DLen(BitsValue(src, p, 8)));
  }

  lemma LastSix(src: seq<Byte>, p: nat, l: nat)
    ensures BitsValue(src, p, l + 6) % 64 == BitsValue(src, p + l, 6)
  {
    hide BitsValue, Shl;
    BitsValueSplit(src, p, l, 6);
    ShlSix(BitsValue(src, p, l));
    LowPart(BitsValue(src, p, l), BitsValue(src, p + l, 6));
  }

  lemma LowPart(a: nat, b: nat)
    requires b < 64
    ensures (64 * a + b) % 64 == b
  {
  }

  lemma ShlSix(v: nat)
    ensures Shl(v, 6) == 64 * v && Shl(1, 6) == 64
  {
    assert Shl(v, 1) == 2 * v;
    assert Shl(v, 2) == 4 * v;
    assert Shl(v, 3) == 8 * v;
    assert Shl(v, 4) == 16 * v;
    assert Shl(v, 5) == 32 * v;
    Powers8();
  }

  // ---------- the start tree ----------

  /** The path to number `u` of a heap whose root is 1, with the two children of `u` being `2 * u + 1`
      on the side of 0 and `2 * u` on the side of 1. */
  function HeapCode(u: nat): seq<bit>
    requires u >= 1
  {
    if u == 1 then [] else HeapCode(u / 2) + [1 - u % 2]
  }

  /** Node `x` of the start tree is number `627 - x` of that heap: the symbols' codes are the binary
      digits of 627 less the symbol, after the first, each turned round. */
  lemma {:induction false} StartCode(x: nat)
    requires x <= R
    ensures Code(Start(), x) == HeapCode(627 - x)
    decreases R - x
  {
    hide Start, Code, HeapCode, Valid;
    if x == R {
      RootCode();
    } else {
      StartUp(x);
      StartCode(N_CHAR + x / 2);
      CodeUp(Start(), x);
      HeapUp(x);
    }
  }

  lemma HeapUp(x: nat)
    requires x < R
    ensures N_CHAR + x / 2 <= R && HeapCode(627 - x) == HeapCode(627 - (N_CHAR + x / 2)) + [x % 2]
  {
    assert 627 - (N_CHAR + x / 2) == (627 - x) / 2;
  }

  lemma RootCode()
    ensures Code(Start(), R) == [] == HeapCode(627 - R)
  {
    hide Start;
  }

  lemma StartUp(x: nat)
    requires x < R
    ensures N_CHAR + x / 2 <= R && |Start().prnt| > x && Start().prnt[x] == N_CHAR + x / 2
  {
  }

  lemma CodeUp(t: Tree, x: nat)
    requires Valid(t) && x < R
    ensures IsNode(t.prnt[x]) && Code(t, x) == Code(t, t.prnt[x]) + [x % 2]
  {
    ParentAbove(t, x);
  }

  /** The bits of a first token: a byte `c` is symbol `c`, and a copy of `len` bytes is symbol
      `len + 253`, followed by the position. */
  lemma FirstToken(k: Token)
    requires IsToken(k)
    ensures TokenBits(Start(), k) == match k
                                     case Literal(c) => HeapCode(627 - c)
                                     case Copy(dist, len) => HeapCode(374 - len) + PositionBits(dist)
  {
    hide Start, Code, PositionBits, HeapCode, Valid, TokenBits;
    LeafOfStart(Symbol(k));
    StartCode(Symbol(k));
    BitsOf(Start(), k);
  }

  lemma BitsOf(t: Tree, k: Token)
    requires Valid(t) && IsToken(k)
    ensures |t.prnt| == T + N_CHAR && IsNode(t.prnt[T + Symbol(k)])
    ensures TokenBits(t, k) == Code(t, t.prnt[T + Symbol(k)]) + if k.Literal? then [] else PositionBits(k.dist)
  {
    hide PositionBits;
    LeafNode(t, Symbol(k));
  }

  lemma LeafOfStart(s: nat)
    requires s < N_CHAR
    ensures Start().prnt[T + s] == s
  {
  }

  /** In the start tree every symbol counts as having come once, and symbol `s` is node `s`. */
  lemma StartWeight(s: nat)
    requires s < N_CHAR
    ensures Weight(Start(), s) == 1 && Start().prnt[T + s] == s
  {
    hide StartFreq;
    StartFreqOrder(N_CHAR - 1);
    LeafOfStart(s);
  }

  // ---------- rebuilding ----------

  /** Halving rounds up. */
  lemma HalfIs(f: int)
    ensures 2 * Half(f) - f == 0 || 2 * Half(f) - f == 1
  {
  }

  /** The leaves are taken over in the order in which they were, each with half its weight. */
  lemma {:induction false} LeavesKept(son: seq<int>, freq: seq<int>, n: nat, i: nat)
    requires n <= |son| && n <= |freq| && i < n && son[i] >= T
    ensures |LeafSons(son, i)| < |LeafSons(son, n)|
    ensures LeafSons(son, n)[|LeafSons(son, i)|] == son[i]
    ensures LeafHalves(son, freq, n)[|LeafSons(son, i)|] == Half(freq[i])
    decreases n
  {
    hide Half;
    if i == n - 1 {
    } else {
      LeavesKept(son, freq, n - 1, i);
    }
  }

  lemma {:induction false} LeafCount(son: seq<int>, n: nat)
    requires n <= |son|
    ensures |LeafSons(son, n)| == |LeavesOf(son, n)|
  {
    if n == 0 {
    } else {
      LeafCount(son, n - 1);
      assert LeavesOf(son, n) == LeavesOf(son, n - 1) + if son[n - 1] >= T then {n - 1} else {};
    }
  }

  /** The nodes that are leaves. */
  ghost function LeavesOf(son: seq<int>, n: nat): set<nat>
    requires n <= |son|
  {
    set i: nat | i < n && son[i] >= T
  }

  /** A joined pair goes behind all nodes that are no heavier, those of its own weight among them. */
  lemma BehindEquals(freq: seq<int>, i: nat, p: nat)
    requires i + 1 < |freq| && freq[0] <= freq[i] + freq[i + 1] && Sorted(freq, |freq|) && p < |freq|
    ensures p < Slot(freq, i) <==> freq[p] <= freq[i] + freq[i + 1]
  {
  }

  /** The tree is rebuilt when its total has come to 32768, and only then. */
  lemma RebuiltAt(t: Tree)
    requires Valid(t)
    ensures Relaxed(t) == if t.freq[R] == 32768 then Rebuilt(t) else t
  {
    hide Rebuilt;
    if t.freq[R] == 32768 { RebuiltValid(t); }
  }

  // ---------- before the first byte ----------

  /** A copy at the very beginning, from up to 4036 bytes back, is of spaces. */
  lemma FirstCopy(ring: seq<Byte>, dist: nat, len: nat)
    requires |ring| >= 4096 && dist < 4036
    ensures CopyFrom(FirstHistory(ring), dist, len) == FirstHistory(ring) + Spaces(len)
  {
    CopiedSpaces(FirstHistory(ring), dist, len);
  }

  function Spaces(n: nat): (s: seq<Byte>) {
    if n == 0 then [] else [32] + Spaces(n - 1)
  }

  lemma {:induction false} CopiedSpaces(hist: seq<Byte>, dist: nat, len: nat)
    requires dist < |hist| && forall i :: |hist| - 1 - dist <= i < |hist| ==> hist[i] == 32
    ensures CopyFrom(hist, dist, len) == hist + Spaces(len)
    decreases len
  {
    if len == 0 {
    } else {
      var more := hist + [hist[|hist| - 1 - dist]];
      CopiedSpaces(more, dist, len - 1);
      assert more + Spaces(len - 1) == hist + ([32] + Spaces(len - 1));
    }
  }
}
