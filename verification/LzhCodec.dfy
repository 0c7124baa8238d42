/** The packed format: what a bit string decodes to, an encoder for it, and the round trip. */
module LzhCodec {
  import opened LzhTree
  import opened LzhUpdate
  import opened BitOps
  import opened LzhBits

  // ---------- tree codes ----------

  /** Where a walk can stand: a leaf mark, or the first node of a pair. */
  predicate WalkNode(x: int) { IsLeafMark(x) || (0 <= x < R && x % 2 == 0) }

  /** From a node down to a leaf, one input bit choosing between the two children each time. */
  function Walk(t: Tree, node: int, src: seq<Byte>, p: nat): (r: (int, nat))
    requires Framed(t) && WalkNode(node)
    ensures 0 <= r.0 < N_CHAR && r.1 >= p
    ensures node < T ==> r.1 > p
    decreases if node < T then node + 1 else 0
  {
    if node >= T then (node - T, p)
    else Walk(t, t.son[node + StreamBit(src, p)], src, p + 1)
  }

  /** The bits that lead from the root to node `x`. */
  function Code(t: Tree, x: int): (b: seq<bit>)
    requires Framed(t) && IsNode(x)
    ensures x < R ==> |b| > 0
    decreases R - x
  {
    if x == R then []
    else ParentAbove(t, x); Code(t, t.prnt[x]) + [x % 2]
  }

  /** The input carries these bits from bit `p` on. */
  ghost predicate Carries(src: seq<Byte>, p: nat, bits: seq<bit>) {
    forall k {:trigger bits[k]} :: 0 <= k < |bits| ==> StreamBit(src, p + k) == bits[k]
  }

  lemma CarriesParts(src: seq<Byte>, p: nat, a: seq<bit>, b: seq<bit>)
    ensures Carries(src, p, a + b) <==> Carries(src, p, a) && Carries(src, p + |a|, b)
  {
    var c := a + b;
    if Carries(src, p, c) {
      forall k | 0 <= k < |a| ensures StreamBit(src, p + k) == a[k] { assert c[k] == a[k]; }
      forall k | 0 <= k < |b| ensures StreamBit(src, p + |a| + k) == b[k] { assert c[|a| + k] == b[k]; }
    }
  }

  /** A code read from the root arrives at its node. */
  lemma {:induction false} WalkCode(t: Tree, x: int, src: seq<Byte>, p: nat)
    requires Valid(t) && IsNode(x) && Carries(src, p, Code(t, x))
    ensures Walk(t, t.son[R], src, p) == Walk(t, t.son[x], src, p + |Code(t, x)|)
    decreases R - x
  {
    hide Valid, Framed, Carries;
    if x >= R {
    } else {
      StepDown(t, x);
      var y := t.prnt[x];
      CarriesParts(src, p, Code(t, y), [x % 2]);
      WalkCode(t, y, src, p);
      CarriesOne(src, p + |Code(t, y)|, x % 2);
    }
  }

  lemma CarriesOne(src: seq<Byte>, p: nat, b: bit)
    requires Carries(src, p, [b])
    ensures StreamBit(src, p) == b
  {
    assert [b][0] == b;
  }

  lemma StepDown(t: Tree, x: int)
    requires Valid(t) && 0 <= x < R
    ensures Framed(t) && Sized(t) && IsNode(t.prnt[x]) && t.prnt[x] > x
    ensures t.son[t.prnt[x]] == x - x % 2 && WalkNode(x - x % 2)
    ensures WalkNode(t.son[R]) && WalkNode(t.son[x])
  {
    ParentAbove(t, x);
    assert t.son[t.prnt[x]] == Pair(x);
    ParentAbove(t, R - 1);
    assert t.son[t.prnt[R - 1]] == Pair(R - 1);
  }

  // ---------- positions ----------

  /** The upper six bits of a position, by the first eight bits of its code (`d_code`). */
  function DCode(i: nat): (c: nat)
    requires i < 256
    ensures c < 64
  {
    if i < 0x20 then 0
    else if i < 0x50 then 1 + (i - 0x20) / 16
    else if i < 0x90 then 4 + (i - 0x50) / 8
    else if i < 0xC0 then 0xC + (i - 0x90) / 4
    else if i < 0xF0 then 0x18 + (i - 0xC0) / 2
    else 0x30 + (i - 0xF0)
  }

  /** How many of those eight bits belong to the code (`d_len`). */
  function DLen(i: nat): (l: nat)
    requires i < 256
    ensures 3 <= l <= 8
  {
    if i < 0x20 then 3 else if i < 0x50 then 4 else if i < 0x90 then 5
    else if i < 0xC0 then 6 else if i < 0xF0 then 7 else 8
  }

  function ReadPosition(src: seq<Byte>, p: nat): (r: (nat, nat))
    ensures r.0 < 4096 && p + 9 <= r.1 <= p + 14
  {
    var i := BitsValue(src, p, 8);
    Powers(1);
    var n := DLen(i) + 6;
    (64 * DCode(i) + BitsValue(src, p, n) % 64, p + n)
  }

  /** The first eight-bit pattern with a given upper part. */
  function FirstPattern(c: nat): (i: nat)
    requires c < 64
    ensures i < 256 && DCode(i) == c
  {
    if c < 1 then 0
    else if c < 4 then 0x20 + 16 * (c - 1)
    else if c < 0xC then 0x50 + 8 * (c - 4)
    else if c < 0x18 then 0x90 + 4 * (c - 0xC)
    else if c < 0x30 then 0xC0 + 2 * (c - 0x18)
    else 0xF0 + (c - 0x30)
  }

  /** The patterns are a prefix code: the first `DLen` bits settle which entry is meant. */
  lemma PrefixCode(c: nat, i: nat)
    requires c < 64 && i < 256
    requires Shr(i, 8 - DLen(FirstPattern(c))) == Shr(FirstPattern(c), 8 - DLen(FirstPattern(c)))
    ensures DCode(i) == c && DLen(i) == DLen(FirstPattern(c))
  {
    var j := FirstPattern(c);
    SmallShifts(i);
    SmallShifts(j);
    if c < 1 { assert i / 32 == j / 32; }
    else if c < 4 { assert i / 16 == j / 16; }
    else if c < 0xC { assert i / 8 == j / 8; }
    else if c < 0x18 { assert i / 4 == j / 4; }
    else if c < 0x30 { assert i / 2 == j / 2; }
  }

  lemma SmallShifts(v: nat)
    ensures Shr(v, 0) == v && Shr(v, 1) == v / 2 && Shr(v, 2) == v / 4
    ensures Shr(v, 3) == v / 8 && Shr(v, 4) == v / 16 && Shr(v, 5) == v / 32
  {
  }

  /** `v` written in `n` bits. */
  function NumBits(v: nat, n: nat): (b: seq<bit>)
    ensures |b| == n
  {
    if n == 0 then [] else NumBits(v / 2, n - 1) + [v % 2]
  }

  lemma {:induction false} NumBitsValue(src: seq<Byte>, p: nat, v: nat, n: nat)
    requires v < Shl(1, n) && Carries(src, p, NumBits(v, n))
    ensures BitsValue(src, p, n) == v
  {
    if n == 0 {
    } else {
      CarriesParts(src, p, NumBits(v / 2, n - 1), [v % 2]);
      NumBitsValue(src, p, v / 2, n - 1);
      assert [v % 2][0] == v % 2;
    }
  }

  /** The code of a position: the prefix for its upper part, then its lower six bits. */
  function PositionBits(d: nat): (b: seq<bit>)
    requires d < 4096
  {
    var i := FirstPattern(d / 64);
    NumBits(Shr(i, 8 - DLen(i)), DLen(i)) + NumBits(d % 64, 6)
  }

  lemma ShrBelow(v: nat, n: nat)
    requires n <= 5 && v < 256
    ensures Shr(v, n) < Shl(1, 8 - n)
  {
    SmallShifts(v);
    Powers(1);
    assert Shl(1, 7) == 128 && Shl(1, 6) == 64 && Shl(1, 5) == 32 && Shl(1, 4) == 16 && Shl(1, 3) == 8;
  }

  lemma PatternRead(src: seq<Byte>, p: nat, c: nat)
    requires c < 64
    requires var i := FirstPattern(c); Carries(src, p, NumBits(Shr(i, 8 - DLen(i)), DLen(i)))
    ensures BitsValue(src, p, 8) < 256
    ensures DCode(BitsValue(src, p, 8)) == c && DLen(BitsValue(src, p, 8)) == DLen(FirstPattern(c))
  {
    var i := FirstPattern(c);
    var l, top := DLen(i), Shr(i, 8 - DLen(i));
    ShrBelow(i, 8 - l);
    NumBitsValue(src, p, top, l);
    BitsValueSplit(src, p, l, 8 - l);
    ShrShl(top, BitsValue(src, p + l, 8 - l), 8 - l);
    Powers(1);
    PrefixCode(c, BitsValue(src, p, 8));
  }

  lemma LowSix(src: seq<Byte>, p: nat, l: nat, v: nat)
    requires v < 64 && Carries(src, p + l, NumBits(v, 6))
    ensures BitsValue(src, p, l + 6) % 64 == v
  {
    hide BitsValue, Shl, NumBits, Carries;
    Times64(1);
    Times64(BitsValue(src, p, l));
    NumBitsValue(src, p + l, v, 6);
    BitsValueSplit(src, p, l, 6);
  }

  lemma Times64(v: nat)
    ensures Shl(v, 6) == 64 * v
  {
    assert Shl(v, 1) == 2 * v;
    assert Shl(v, 2) == 4 * v;
    assert Shl(v, 4) == 16 * v;
  }

  /** A position written is the position read. */
  lemma ReadPositionBits(src: seq<Byte>, p: nat, d: nat)
    requires d < 4096 && Carries(src, p, PositionBits(d))
    ensures ReadPosition(src, p) == (d, p + |PositionBits(d)|)
  {
    var i := FirstPattern(d / 64);
    var l := DLen(i);
    CarriesParts(src, p, NumBits(Shr(i, 8 - l), l), NumBits(d % 64, 6));
    PatternRead(src, p, d / 64);
    LowSix(src, p, l, d % 64);
  }

  // ---------- tokens ----------

  /** One step of the output: a byte, or a copy of `len` bytes from `dist + 1` bytes back. */
  datatype Token = Literal(c: Byte) | Copy(dist: nat, len: nat)

  predicate IsToken(k: Token) {
    k.Copy? ==> k.dist < 4096 && 3 <= k.len <= 60
  }

  predicate AreTokens(ks: seq<Token>) {
    forall i :: 0 <= i < |ks| ==> IsToken(ks[i])
  }

  /** The symbol of the tree that announces a token. */
  function Symbol(k: Token): (s: int)
    requires IsToken(k)
    ensures 0 <= s < N_CHAR
  {
    if k.Literal? then k.c as int else k.len + 253
  }

  lemma RootInner(t: Tree)
    requires Valid(t)
    ensures 0 <= t.son[R] < R && t.son[R] % 2 == 0
  {
    ParentAbove(t, R - 1);
    assert t.son[t.prnt[R - 1]] == Pair(R - 1);
  }

  lemma WalkFromRoot(t: Tree)
    requires Valid(t)
    ensures Framed(t) && Sized(t) && WalkNode(t.son[R]) && 0 <= t.son[R] < T
    ensures forall m :: IsLeafMark(m) ==> WalkNode(m)
  {
    RootInner(t);
  }

  function ReadToken(t: Tree, src: seq<Byte>, p: nat): (r: (Token, nat))
    requires Valid(t)
    ensures IsToken(r.0) && r.1 > p
  {
    hide Valid, Framed;
    WalkFromRoot(t);
    var (s, q) := Walk(t, t.son[R], src, p);
    if s < 256 then (Literal(s), q)
    else var (d, q') := ReadPosition(src, q); (Copy(d, s - 253), q')
  }

  function TokenBits(t: Tree, k: Token): (b: seq<bit>)
    requires Valid(t) && IsToken(k)
    ensures |b| > 0
  {
    LeafNode(t, Symbol(k));
    var b := Code(t, t.prnt[T + Symbol(k)]);
    if k.Literal? then b else b + PositionBits(k.dist)
  }

  lemma LeafNode(t: Tree, s: int)
    requires Valid(t) && 0 <= s < N_CHAR
    ensures 0 <= t.prnt[T + s] < R && t.son[t.prnt[T + s]] == T + s
  {
    assert IsLeafMark(T + s);
    assert t.son[t.prnt[T + s]] == Pair(T + s);
    ParentAbove(t, R - 1);
    assert t.son[t.prnt[R - 1]] == Pair(R - 1);
  }

  lemma WalkAtLeaf(t: Tree, s: int, src: seq<Byte>, p: nat)
    requires Framed(t) && 0 <= s < N_CHAR
    ensures WalkNode(T + s) && Walk(t, T + s, src, p) == (s, p)
  {
  }

  lemma ReadTokenBits(t: Tree, k: Token, src: seq<Byte>, p: nat)
    requires Valid(t) && IsToken(k) && Carries(src, p, TokenBits(t, k))
    ensures ReadToken(t, src, p) == (k, p + |TokenBits(t, k)|)
  {
    hide Valid, Framed, Carries, Walk, Code, ReadPosition, PositionBits;
    var s := Symbol(k);
    WalkFromRoot(t);
    LeafNode(t, s);
    var x := t.prnt[T + s];
    if k.Copy? { CarriesParts(src, p, Code(t, x), PositionBits(k.dist)); }
    WalkCode(t, x, src, p);
    WalkAtLeaf(t, s, src, p + |Code(t, x)|);
    if k.Copy? { ReadPositionBits(src, p + |Code(t, x)|, k.dist); }
  }

  /** A message: each token in the code of the tree as it stands, the tree then updated. */
  function Encode(t: Tree, ks: seq<Token>): (b: seq<bit>)
    requires Valid(t) && AreTokens(ks)
    decreases |ks|
  {
    hide Valid;
    if ks == [] then []
    else TokenBits(t, ks[0]) + Encode(Updated(t, Symbol(ks[0])), ks[1..])
  }

  // ---------- what tokens mean ----------

  function CopyFrom(hist: seq<Byte>, dist: nat, len: nat): (r: seq<Byte>)
    requires dist < |hist|
    ensures |r| == |hist| + len && hist <= r
    decreases len
  {
    if len == 0 then hist
    else CopyFrom(hist + [hist[|hist| - 1 - dist]], dist, len - 1)
  }

  function Apply(hist: seq<Byte>, k: Token): (r: seq<Byte>)
    requires |hist| >= 4096 && IsToken(k)
    ensures |r| > |hist| && hist <= r
  {
    if k.Literal? then hist + [k.c] else CopyFrom(hist, k.dist, k.len)
  }

  /** The history after a message. */
  function Text(hist: seq<Byte>, ks: seq<Token>): (r: seq<Byte>)
    requires |hist| >= 4096 && AreTokens(ks)
    ensures hist <= r
    decreases |ks|
  {
    if ks == [] then hist else Text(Apply(hist, ks[0]), ks[1..])
  }

  // ---------- the unpacker's loop ----------

  /** Whether the loop goes round again after `p` bits: some byte has not been fetched yet.
      After a token the reader has fetched the byte of the last bit and one more. */
  predicate More(src: seq<Byte>, p: nat) {
    if p == 0 then |src| > 0 else (p + 7) / 8 + 1 < |src|
  }

  /** The history when the loop ends, from tree `t`, bit `p` and history `hist`. */
  function Unpacked(t: Tree, src: seq<Byte>, p: nat, hist: seq<Byte>): (r: seq<Byte>)
    requires Valid(t) && |hist| >= 4096
    ensures hist <= r
    decreases 8 * |src| - p
  {
    hide Valid;
    if !More(src, p) then hist
    else
      var (k, q) := ReadToken(t, src, p);
      Unpacked(Updated(t, Symbol(k)), src, q, Apply(hist, k))
  }

  // ---------- the round trip ----------

  /** Where the last token of a message starts. */
  function LastStart(t: Tree, ks: seq<Token>): nat
    requires Valid(t) && AreTokens(ks) && ks != []
    decreases |ks|
  {
    hide Valid;
    if |ks| == 1 then 0
    else |TokenBits(t, ks[0])| + LastStart(Updated(t, Symbol(ks[0])), ks[1..])
  }

  lemma {:induction false} LastStartWithin(t: Tree, ks: seq<Token>)
    requires Valid(t) && AreTokens(ks) && ks != []
    ensures LastStart(t, ks) < |Encode(t, ks)|
    decreases |ks|
  {
    hide Valid;
    if |ks| <= 1 {
    } else {
      LastStartWithin(Updated(t, Symbol(ks[0])), ks[1..]);
    }
  }

  /** While the loop still goes round at the last token, it decodes the whole message. */
  lemma {:induction false} DecodesAll(t: Tree, ks: seq<Token>, src: seq<Byte>, p: nat, hist: seq<Byte>)
    requires Valid(t) && AreTokens(ks) && |hist| >= 4096 && Carries(src, p, Encode(t, ks))
    requires ks != [] ==> More(src, p + LastStart(t, ks))
    ensures Text(hist, ks) <= Unpacked(t, src, p, hist)
    decreases |ks|
  {
    hide Valid, Carries, TokenBits, ReadToken, Updated, Apply, Symbol;
    if ks == [] {
    } else {
      var t', rest := Updated(t, Symbol(ks[0])), ks[1..];
      var q := p + |TokenBits(t, ks[0])|;
      CarriesParts(src, p, TokenBits(t, ks[0]), Encode(t', rest));
      ReadTokenBits(t, ks[0], src, p);
      DecodesAll(t', rest, src, q, Apply(hist, ks[0]));
    }
  }

  /** Once it does not, the output is too short. */
  lemma {:induction false} LosesTail(t: Tree, ks: seq<Token>, src: seq<Byte>, p: nat, hist: seq<Byte>)
    requires Valid(t) && AreTokens(ks) && |hist| >= 4096 && Carries(src, p, Encode(t, ks))
    requires ks != [] && !More(src, p + LastStart(t, ks))
    ensures |Unpacked(t, src, p, hist)| < |Text(hist, ks)|
    decreases |ks|
  {
    hide Valid, Carries, TokenBits, ReadToken, Updated, Apply, Symbol;
    if !More(src, p) {
    } else {
      var t', rest := Updated(t, Symbol(ks[0])), ks[1..];
      CarriesParts(src, p, TokenBits(t, ks[0]), Encode(t', rest));
      ReadTokenBits(t, ks[0], src, p);
      LosesTail(t', rest, src, p + |TokenBits(t, ks[0])|, Apply(hist, ks[0]));
    }
  }

  /** The round trip, and exactly when it works: the unpacked output starts with the message
      if and only if the loop has not stopped before the message's last token. */
  lemma RoundTrip(ks: seq<Token>, src: seq<Byte>, hist: seq<Byte>)
    requires AreTokens(ks) && |hist| >= 4096 && Carries(src, 0, Encode(Start(), ks))
    ensures Text(hist, ks) <= Unpacked(Start(), src, 0, hist)
       <==> (ks == [] || More(src, LastStart(Start(), ks)))
  {
    hide Valid, Carries, Start, Encode, Text, Unpacked, LastStart;
    if ks == [] || More(src, LastStart(Start(), ks)) {
      DecodesAll(Start(), ks, src, 0, hist);
    } else {
      LosesTail(Start(), ks, src, 0, hist);
    }
  }

  /** Two bytes beyond the packed bits, whatever they hold, are always enough. */
  lemma TwoPaddingBytes(ks: seq<Token>, pad: seq<Byte>, hist: seq<Byte>)
    requires AreTokens(ks) && |hist| >= 4096 && |pad| >= 2
    ensures Text(hist, ks) <= Unpacked(Start(), Pack(Encode(Start(), ks)) + pad, 0, hist)
  {
    hide Valid, Carries, Start, Encode, Text, Unpacked, LastStart;
    var bits := Encode(Start(), ks);
    PackCarries(bits, pad);
    if ks != [] { LastStartWithin(Start(), ks); }
    RoundTrip(ks, Pack(bits) + pad, hist);
  }

  /** Without padding a message of two tokens or more comes back exactly when its last token is
      long enough to reach into the second byte behind the one in which it starts, or, from a byte
      boundary, into the second byte. */
  lemma NoPadding(ks: seq<Token>, hist: seq<Byte>)
    requires AreTokens(ks) && |hist| >= 4096 && |ks| >= 2
    ensures var late := LastStart(Start(), ks) % 8;
            Text(hist, ks) <= Unpacked(Start(), Pack(Encode(Start(), ks)), 0, hist)
            <==> |Encode(Start(), ks)| - LastStart(Start(), ks) > if late == 0 then 8 else 16 - late
  {
    hide Valid, Carries, Start, Encode, Text, Unpacked, LastStart;
    var bits := Encode(Start(), ks);
    PackCarries(bits, []);
    assert Pack(bits) + [] == Pack(bits);
    LastStartLate(Start(), ks);
    LastStartWithin(Start(), ks);
    RoundTrip(ks, Pack(bits), hist);
    Reaches(LastStart(Start(), ks), |bits|);
  }

  lemma Reaches(last: nat, end: nat)
    requires 0 < last < end
    ensures (last + 7) / 8 + 1 < (end + 7) / 8 <==> end - last > if last % 8 == 0 then 8 else 16 - last % 8
  {
  }

  lemma LastStartLate(t: Tree, ks: seq<Token>)
    requires Valid(t) && AreTokens(ks) && |ks| >= 2
    ensures LastStart(t, ks) > 0
  {
    hide Valid;
  }

  // ---------- packing bits into bytes ----------

  function BitOr0(bits: seq<bit>, k: nat): bit { if k < |bits| then bits[k] else 0 }

  function PackByte(bits: seq<bit>, k: nat): Byte {
    (128 * BitOr0(bits, k) + 64 * BitOr0(bits, k + 1) + 32 * BitOr0(bits, k + 2) + 16 * BitOr0(bits, k + 3)
     + 8 * BitOr0(bits, k + 4) + 4 * BitOr0(bits, k + 5) + 2 * BitOr0(bits, k + 6) + BitOr0(bits, k + 7))
  }

  /** The bits, eight to a byte, the last byte filled up with zeros. */
  function Pack(bits: seq<bit>): (s: seq<Byte>)
    ensures |s| == (|bits| + 7) / 8
  {
    seq((|bits| + 7) / 8, q requires q >= 0 => PackByte(bits, 8 * q))
  }

  lemma PackCarries(bits: seq<bit>, pad: seq<Byte>)
    ensures Carries(Pack(bits) + pad, 0, bits)
  {
    var s := Pack(bits) + pad;
    forall k | 0 <= k < |bits| ensures StreamBit(s, 0 + k) == bits[k] {
      var q := k / 8;
      assert s[q] == PackByte(bits, 8 * q);
      PackedBit(bits, 8 * q, k % 8);
      assert 8 * q + k % 8 == k;
    }
  }

  lemma PackedBit(bits: seq<bit>, k: nat, j: nat)
    requires j < 8
    ensures Shr(PackByte(bits, k) as int, 7 - j) % 2 == BitOr0(bits, k + j)
  {
    var v := PackByte(bits, k) as int;
    SmallShifts(v);
    assert Shr(v, 6) == v / 64;
    assert Shr(v, 7) == v / 128;
    EightBits(BitOr0(bits, k), BitOr0(bits, k + 1), BitOr0(bits, k + 2), BitOr0(bits, k + 3),
              BitOr0(bits, k + 4), BitOr0(bits, k + 5), BitOr0(bits, k + 6), BitOr0(bits, k + 7), v);
  }

  lemma EightBits(a: bit, b: bit, c: bit, d: bit, e: bit, f: bit, g: bit, h: bit, v: nat)
    requires v == 128 * a + 64 * b + 32 * c + 16 * d + 8 * e + 4 * f + 2 * g + h
    ensures v / 128 % 2 == a && v / 64 % 2 == b && v / 32 % 2 == c && v / 16 % 2 == d
    ensures v / 8 % 2 == e && v / 4 % 2 == f && v / 2 % 2 == g && v % 2 == h
  {
    assert v / 2 == 64 * a + 32 * b + 16 * c + 8 * d + 4 * e + 2 * f + g;
    assert v / 4 == 32 * a + 16 * b + 8 * c + 4 * d + 2 * e + f;
    assert v / 8 == 16 * a + 8 * b + 4 * c + 2 * d + e;
    assert v / 16 == 8 * a + 4 * b + 2 * c + d;
    assert v / 32 == 4 * a + 2 * b + c;
    assert v / 64 == 2 * a + b;
  }

  // ---------- copies ----------

  /** Every byte a copy emits, overlapping itself or not, equals the one `dist + 1` places before it. */
  lemma {:induction false} CopyRepeats(hist: seq<Byte>, dist: nat, len: nat, k: nat)
    requires dist < |hist| && |hist| <= k < |hist| + len
    ensures CopyFrom(hist, dist, len)[k] == CopyFrom(hist, dist, len)[k - 1 - dist]
    decreases len
  {
    var h := hist + [hist[|hist| - 1 - dist]];
    if k > |hist| {
      CopyRepeats(h, dist, len - 1, k);
    } else {
      assert h[k] == h[k - 1 - dist];
    }
  }
}
