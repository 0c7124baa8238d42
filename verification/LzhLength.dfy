/** How long the codes of the adaptive tree can get, and two-byte messages that never come back. */
module LzhLength {
  import opened BitOps
  import opened LzhTree
  import opened LzhUpdate
  import opened LzhBits
  import opened LzhCodec

  // ---------- long codes need heavy roots ----------

  /** The least weight of a root `k` steps above a leaf. */
  function LeastWeight(k: nat): (w: nat)
    ensures w > k
  {
    if k < 2 then k + 1 else LeastWeight(k - 1) + LeastWeight(k - 2)
  }

  lemma {:induction false} WeightGrows(j: nat, k: nat)
    requires j <= k
    ensures LeastWeight(j) <= LeastWeight(k)
    decreases k
  {
    if j >= k {
    } else {
      WeightGrows(j, k - 1);
    }
  }

  /** A node's grandparent weighs at least as much as the node and its parent together. */
  lemma Grandparent(t: Tree, x: int)
    requires Valid(t) && 0 <= x < R && t.prnt[x] < R
    ensures Sized(t) && IsNode(t.prnt[x]) && IsNode(t.prnt[t.prnt[x]])
    ensures t.freq[t.prnt[t.prnt[x]]] >= t.freq[x] + t.freq[t.prnt[x]]
  {
    var y := t.prnt[x];
    assert t.son[y] == Pair(x) && t.son[t.prnt[y]] == Pair(y);
    var other := if y % 2 == 0 then y + 1 else y - 1;
    assert t.freq[t.prnt[y]] == t.freq[y] + t.freq[other];
    assert x <= other;
  }

  /** Climbing to the root, the weights grow like Fibonacci numbers. */
  lemma {:induction false} ClimbWeight(t: Tree, x: int, k: nat)
    requires Valid(t) && IsNode(x) && t.freq[x] >= LeastWeight(k)
    requires x < R ==> IsNode(t.prnt[x]) && t.freq[t.prnt[x]] >= LeastWeight(k + 1)
    ensures t.freq[R] >= LeastWeight(k + |Code(t, x)|)
    decreases R - x
  {
    hide Valid, Framed;
    if x >= R {
    } else {
      StepDown(t, x);
      var y := t.prnt[x];
      if y < R {
        Grandparent(t, x);
        StepDown(t, y);
      }
      ClimbWeight(t, y, k + 1);
    }
  }

  /** The code of a symbol is bounded by the logarithm, to the golden ratio, of the total count. */
  lemma CodeBound(t: Tree, s: int)
    requires Valid(t) && 0 <= s < N_CHAR
    ensures IsNode(t.prnt[T + s]) && LeastWeight(|Code(t, t.prnt[T + s])|) <= t.freq[R]
  {
    LeafNode(t, s);
    var x := t.prnt[T + s];
    ParentHeavy(t, x);
    ClimbWeight(t, x, 0);
  }

  lemma ParentHeavy(t: Tree, x: int)
    requires Valid(t) && 0 <= x < R
    ensures IsNode(t.prnt[x]) && t.freq[x] >= 1 && t.freq[t.prnt[x]] >= 2
  {
    assert t.son[t.prnt[x]] == Pair(x);
    assert t.freq[t.prnt[x]] == t.freq[Pair(x)] + t.freq[Pair(x) + 1];
  }

  lemma CodeWithin(t: Tree, s: int, k: nat)
    requires Valid(t) && 0 <= s < N_CHAR && t.freq[R] < LeastWeight(k + 1)
    ensures IsNode(t.prnt[T + s]) && |Code(t, t.prnt[T + s])| <= k
  {
    hide Code, LeastWeight;
    CodeBound(t, s);
    if |Code(t, t.prnt[T + s])| > k { WeightGrows(k + 1, |Code(t, t.prnt[T + s])|); }
  }

  lemma Weights()
    ensures LeastWeight(12) == 377 && LeastWeight(22) == 46368
  {
    assert LeastWeight(4) == 8 && LeastWeight(5) == 13;
    assert LeastWeight(8) == 55 && LeastWeight(9) == 89;
    assert LeastWeight(12) == 377 && LeastWeight(13) == 610;
    assert LeastWeight(16) == 2584 && LeastWeight(17) == 4181;
    assert LeastWeight(20) == 17711 && LeastWeight(21) == 28657;
  }

  /** Whatever the message so far, no symbol takes more than 21 bits. */
  lemma CodeAtMost21(t: Tree, s: int)
    requires Valid(t) && 0 <= s < N_CHAR
    ensures IsNode(t.prnt[T + s]) && |Code(t, t.prnt[T + s])| <= 21
  {
    hide LeastWeight;
    Weights();
    CodeWithin(t, s, 21);
  }

  // ---------- messages that are lost ----------

  /** The length of the code of a node of the start tree. */
  function StartLength(x: nat): nat
    requires x <= R
  {
    |Code(Start(), x)|
  }

  lemma StartStep(x: nat)
    requires x < R
    ensures N_CHAR + x / 2 <= R && StartLength(x) == StartLength(N_CHAR + x / 2) + 1
  {
    hide Code, Start;
    StartLink(x);
    CodeStep(Start(), x);
  }

  lemma StartLink(x: nat)
    requires x < R
    ensures |Start().prnt| > x && Start().prnt[x] == N_CHAR + x / 2
  {
  }

  lemma CodeStep(t: Tree, x: nat)
    requires Valid(t) && x < R
    ensures IsNode(t.prnt[x]) && |Code(t, x)| == |Code(t, t.prnt[x])| + 1
  {
    ParentAbove(t, x);
  }

  /** The first 116 symbols have codes of nine bits at the start. */
  lemma StartNine(s: nat)
    requires s < 116
    ensures Start().prnt[T + s] == s && |Code(Start(), s)| == 9
  {
    hide Code, Start;
    StartParent(s);
    CodeOfRoot();
    StartStep(s);
    StartFour(N_CHAR + s / 2);
    assert StartLength(s) == 9;
  }

  /** Nine steps lead to the root, eight of them from the level above the symbols. */
  lemma StartFour(x: nat)
    requires N_CHAR <= x < N_CHAR + 58
    ensures StartLength(x) == StartLength(R) + 8
  {
    hide StartLength;
    var a := N_CHAR + x / 2;
    var b := N_CHAR + a / 2;
    var c := N_CHAR + b / 2;
    var d := N_CHAR + c / 2;
    StartStep(x);
    StartStep(a);
    StartStep(b);
    StartStep(c);
    assert 608 <= d <= 611;
    TopSteps(d);
  }

  lemma TopSteps(d: nat)
    requires 608 <= d <= 611
    ensures StartLength(d) == StartLength(R) + 4
  {
    hide StartLength;
    StartStep(d);
    StartStep(N_CHAR + d / 2);
    if d < 610 {
      assert N_CHAR + d / 2 == 618;
    } else {
      assert N_CHAR + d / 2 == 619;
    }
    StartStep(623);
    StartStep(624);
    StartStep(625);
  }

  lemma StartParent(s: nat)
    requires s < N_CHAR
    ensures Start().prnt[T + s] == s
  {
  }

  lemma CodeOfRoot()
    ensures |Code(Start(), R)| == 0
  {
  }

  /** After one symbol no code has more than eleven bits. */
  lemma SecondCode(s: int, s': int)
    requires 0 <= s < N_CHAR && 0 <= s' < N_CHAR
    ensures var t := Updated(Start(), s); IsNode(t.prnt[T + s']) && |Code(t, t.prnt[T + s'])| <= 11
  {
    hide Code, Start, Updated, LeastWeight;
    SecondRoot(s);
    Weights();
    CodeWithin(Updated(Start(), s), s', 11);
  }

  lemma SecondRoot(s: int)
    requires 0 <= s < N_CHAR
    ensures Updated(Start(), s).freq[R] == N_CHAR + 1
  {
    hide Climb, Valid;
    StartRoot(StartFreq(N_CHAR - 1), N_CHAR - 1);
    LeafPending(Start(), s);
  }

  /** Two bytes as a message. */
  function TwoBytes(a: Byte, b: Byte): (ks: seq<Token>)
    ensures AreTokens(ks) && |ks| == 2 && ks[0] == Literal(a) && ks[1] == Literal(b)
  {
    [Literal(a), Literal(b)]
  }

  /** If the first is below 116, the second never comes back without padding. */
  lemma TwoBytesLost(a: Byte, b: Byte, ks: seq<Token>, hist: seq<Byte>)
    requires a < 116 && |hist| >= 4096
    requires AreTokens(ks) && |ks| == 2 && ks[0] == Literal(a) && ks[1] == Literal(b)
    ensures !(Text(hist, ks) <= Unpacked(Start(), Pack(Encode(Start(), ks)), 0, hist))
  {
    hide Start, Valid, Unpacked, Text, Pack, Encode, LastStart, AreTokens;
    TwoLengths(a, b, ks);
    NoPadding(ks, hist);
  }

  lemma TwoLengths(a: Byte, b: Byte, ks: seq<Token>)
    requires a < 116 && AreTokens(ks) && |ks| == 2 && ks[0] == Literal(a) && ks[1] == Literal(b)
    ensures LastStart(Start(), ks) == 9 && |Encode(Start(), ks)| <= 20
  {
    hide Start, Valid, Encode, LastStart, AreTokens, Updated, TokenBits;
    FirstLength(a);
    SecondLength(a, b);
    EncodeTwo(Start(), ks);
  }

  /** One such message. */
  lemma TwoZerosLost(hist: seq<Byte>)
    requires |hist| >= 4096
    ensures var ks := TwoBytes(0, 0);
            !(Text(hist, ks) <= Unpacked(Start(), Pack(Encode(Start(), ks)), 0, hist))
  {
    hide *;
    TwoBytesLost(0, 0, TwoBytes(0, 0), hist);
  }

  lemma FirstLength(a: Byte)
    requires a < 116
    ensures |TokenBits(Start(), Literal(a))| == 9
  {
    hide Start, Valid, Code, TokenBits;
    StartNine(a);
    LiteralBits(Start(), a);
  }

  lemma SecondLength(a: Byte, b: Byte)
    ensures |TokenBits(Updated(Start(), a), Literal(b))| <= 11
  {
    hide Start, Valid, Code, TokenBits, Updated;
    SecondCode(a, b);
    LiteralBits(Updated(Start(), a), b);
  }

  lemma LiteralBits(t: Tree, c: Byte)
    requires Valid(t)
    ensures IsNode(t.prnt[T + c]) && TokenBits(t, Literal(c)) == Code(t, t.prnt[T + c])
  {
    hide Valid;
    LeafNode(t, c);
  }

  lemma EncodeTwo(t: Tree, ks: seq<Token>)
    requires Valid(t) && AreTokens(ks) && |ks| == 2
    ensures LastStart(t, ks) == |TokenBits(t, ks[0])|
    ensures |Encode(t, ks)| == |TokenBits(t, ks[0])| + |TokenBits(Updated(t, Symbol(ks[0])), ks[1])|
  {
    hide Valid, Updated, TokenBits;
    assert ks[1..] == [ks[1]];
    EncodeOne(Updated(t, Symbol(ks[0])), ks[1..]);
  }

  lemma EncodeOne(t: Tree, ks: seq<Token>)
    requires Valid(t) && AreTokens(ks) && |ks| == 1
    ensures Encode(t, ks) == TokenBits(t, ks[0]) && LastStart(t, ks) == 0
  {
    hide Valid, Updated, TokenBits;
    assert ks[1..] == [];
    assert Encode(Updated(t, Symbol(ks[0])), []) == [];
  }
}
