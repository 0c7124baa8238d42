/** `unpack_lzh`: the decoding loop over the tree tables, the bit reader and the ring window. */
module LzhUnpack {
  import opened LzhTree
  import opened LzhUpdate
  import opened BitOps
  import opened LzhBits
  import opened LzhReader
  import opened LzhHuffman
  import opened LzhCodec

  const N: int := 4096
  const F: int := 60
  const SPACE: Byte := 32

  // ---------- the ring window ----------

  /** How far back from the write position `r` the slot `i` was written. */
  function Age(r: int, i: int): int { if i < r then r - i else r - i + N }

  /** The window holds the last 4096 bytes of the history, ending just before slot `r`. */
  ghost predicate RingHolds(ring: seq<Byte>, r: int, hist: seq<Byte>) {
    && |ring| >= N && |hist| >= N && 0 <= r < N
    && (forall i :: 0 <= i < N ==> ring[i] == hist[|hist| - Age(r, i)])
  }

  lemma RingPut(ring: seq<Byte>, r: int, hist: seq<Byte>, c: Byte)
    requires RingHolds(ring, r, hist)
    ensures RingHolds(ring[r := c], (r + 1) % N, hist + [c])
  {
  }

  /** The slot a copy reads from holds the byte `dist + 1` places back, however the two overlap. */
  lemma RingBack(ring: seq<Byte>, r0: int, k: nat, hist: seq<Byte>, dist: nat)
    requires 0 <= r0 < N && dist < N && RingHolds(ring, (r0 + k) % N, hist)
    ensures ring[((r0 - dist - 1) % N + k) % N] == hist[|hist| - 1 - dist]
  {
    var r := (r0 + k) % N;
    var i := ((r0 - dist - 1) % N + k) % N;
    assert i == (r - dist - 1) % N;
    assert Age(r, i) == dist + 1;
  }

  lemma NextSlot(r: int, k: nat)
    ensures ((r + k) % N + 1) % N == (r + (k + 1)) % N
  {
  }

  /** The history the window stands for before the first byte: what the last 60 slots held,
      then 4036 spaces. */
  function FirstHistory(ring: seq<Byte>): (h: seq<Byte>)
    requires |ring| >= N
    ensures |h| == N
  {
    ring[N - F..N] + seq(N - F, _ => SPACE)
  }

  lemma CopyStep(hist: seq<Byte>, d: nat, len: nat)
    requires d < |hist|
    ensures CopyFrom(hist, d, len) == if len == 0 then hist else CopyFrom(hist + [hist[|hist| - 1 - d]], d, len - 1)
  {
  }

  lemma WalkStep(t: Tree, c: int, src: seq<Byte>, p: nat)
    requires Valid(t) && WalkNode(c)
    ensures c >= T ==> Walk(t, c, src, p) == (c - T, p)
    ensures c < T ==> 0 <= c && c + 1 < T
    ensures c < T ==>
      var d := t.son[c + StreamBit(src, p)];
      WalkNode(d) && (d < T ==> d < c) && Walk(t, c, src, p) == Walk(t, d, src, p + 1)
  {
  }

  /** The loop's test on the fetch pointer, in terms of bits delivered. */
  lemma LoopTest(rd: BitReader)
    requires rd.Valid() && (rd.pos == rd.getlen == 0 || (rd.pos > 0 && 8 <= rd.getlen <= 15))
    ensures rd.ptr < |rd.src| <==> More(rd.src, rd.pos)
    ensures rd.ptr < |rd.src| ==> rd.pos < 8 * |rd.src|
  {
  }

  lemma UnpackedStep(t: Tree, src: seq<Byte>, p: nat, hist: seq<Byte>)
    requires Valid(t) && |hist| >= N && More(src, p)
    ensures var (k, q) := ReadToken(t, src, p);
            Unpacked(t, src, p, hist) == Unpacked(Updated(t, Symbol(k)), src, q, Apply(hist, k))
  {
  }

  lemma UnpackedEnd(t: Tree, src: seq<Byte>, p: nat, hist: seq<Byte>)
    requires Valid(t) && |hist| >= N && !More(src, p)
    ensures Unpacked(t, src, p, hist) == hist
  {
  }

  class Unpacker {
    const tree: HuffTree
    const text: array<Byte>

    ghost predicate Ready()
    {
      tree.Allocated() && text.Length == N + F - 1
    }

    constructor ()
      ensures Ready() && fresh(tree) && fresh(text)
    {
      tree := new HuffTree();
      text := new Byte[N + F - 1];
    }

    /** From the root to a leaf, choosing the child by the next bit; then update the tree. */
    method DecodeChar(rd: BitReader) returns (c: int)
      requires Ready() && Valid(tree.Value()) && rd.Valid()
      modifies tree.freq, tree.son, tree.prnt, rd`ptr, rd`getbuf, rd`getlen, rd`pos
      ensures rd.Valid() && rd.src == old(rd.src) && 8 <= rd.getlen <= 15
      ensures var t := old(tree.Value());
              && (c, rd.pos) == Walk(t, t.son[R], rd.src, old(rd.pos))
              && tree.Value() == Updated(t, c) && Valid(tree.Value())
    {
      hide Valid, Framed, Updated, Walk, BitReader.Valid;
      c := Descend(rd);
      tree.Update(c);
    }

    method Descend(rd: BitReader) returns (c: int)
      requires Ready() && Valid(tree.Value()) && rd.Valid()
      modifies rd`ptr, rd`getbuf, rd`getlen, rd`pos
      ensures rd.Valid() && 8 <= rd.getlen <= 15
      ensures var t := old(tree.Value()); (c, rd.pos) == Walk(t, t.son[R], rd.src, old(rd.pos))
    {
      hide Valid, Framed, Walk, WalkNode, StreamBit, BitReader.Valid;
      ghost var t := tree.Value();
      WalkFromRoot(t);
      c := tree.son[R];
      while c < T
        invariant rd.Valid() && tree.son[..] == t.son
        invariant WalkNode(c)
        invariant c >= T ==> 8 <= rd.getlen <= 15
        invariant Walk(t, c, rd.src, rd.pos) == Walk(t, t.son[R], rd.src, old(rd.pos))
        decreases if c < T then c + 1 else 0
      {
        WalkStep(t, c, rd.src, rd.pos);
        var b := rd.GetBit();
        c := tree.son[c + b];
      }
      WalkStep(t, c, rd.src, rd.pos);
      c := c - T;
    }

    method DecodePosition(rd: BitReader) returns (d: nat)
      requires rd.Valid()
      modifies rd`ptr, rd`getbuf, rd`getlen, rd`pos
      ensures rd.Valid() && 8 <= rd.getlen <= 15
      ensures (d, rd.pos) == ReadPosition(rd.src, old(rd.pos))
    {
      hide BitReader.Valid, DCode, DLen, StreamBit;
      ghost var p := rd.pos;
      var i := rd.GetByte();
      Powers(1);
      var c, j := DCode(i) * 64, DLen(i);
      ghost var n := DLen(i) + 6;
      j := j - 2;
      while j > 0
        invariant 0 <= j <= n - 8 && rd.Valid() && rd.pos == p + n - j
        invariant i == BitsValue(rd.src, p, n - j)
        invariant j < n - 8 ==> 8 <= rd.getlen <= 15
      {
        var b := rd.GetBit();
        i := i * 2 + b;
        j := j - 1;
      }
      d := c + i % 64;
    }

    /** Write one byte to the output and to the window. */
    method Put(c: Byte, r: int, out: seq<Byte>, ghost hist: seq<Byte>) returns (r': int, out': seq<Byte>)
      requires Ready() && RingHolds(text[..], r, hist)
      modifies text
      ensures RingHolds(text[..], r', hist + [c]) && r' == (r + 1) % N && out' == out + [c]
    {
      out' := out + [c];
      RingPut(text[..], r, hist, c);
      text[r] := c;
      r' := (r + 1) % N;
    }

    method Unpack(src: seq<Byte>) returns (out: seq<Byte>)
      requires Ready()
      modifies tree.freq, tree.son, tree.prnt, text
      ensures var h := FirstHistory(old(text[..])); h + out == Unpacked(Start(), src, 0, h)
    {
      hide Valid, RingHolds, Start, Updated, BitReader.Valid, Unpacked, FirstHistory, More, ReadToken, Apply, Symbol;
      ghost var h := FirstHistory(text[..]);
      ghost var hist := h;
      var rd := new BitReader(src);
      tree.StartHuff();
      var r := FillWindow();
      out := [];
      while rd.ptr < |rd.src|
        invariant rd.Valid() && rd.src == src && Valid(tree.Value())
        invariant rd.pos == rd.getlen == 0 || (rd.pos > 0 && 8 <= rd.getlen <= 15)
        invariant RingHolds(text[..], r, hist) && 0 <= r < N && |hist| >= N && hist == h + out
        invariant Unpacked(tree.Value(), src, rd.pos, hist) == Unpacked(Start(), src, 0, h)
        decreases 8 * |src| - rd.pos
      {
        LoopTest(rd);
        UnpackedStep(tree.Value(), src, rd.pos, hist);
        r, out, hist := UnpackToken(rd, r, out, hist);
        assert hist == h + out;
      }
      LoopTest(rd);
      UnpackedEnd(tree.Value(), src, rd.pos, hist);
    }

    /** One round of the loop: a byte, or a copy. */
    method UnpackToken(rd: BitReader, r0: int, out0: seq<Byte>, ghost hist0: seq<Byte>)
      returns (r: int, out: seq<Byte>, ghost hist: seq<Byte>)
      requires Ready() && Valid(tree.Value()) && rd.Valid()
      requires RingHolds(text[..], r0, hist0) && 0 <= r0 < N && |hist0| >= N
      modifies tree.freq, tree.son, tree.prnt, text, rd`ptr, rd`getbuf, rd`getlen, rd`pos
      ensures rd.Valid() && Valid(tree.Value()) && 8 <= rd.getlen <= 15
      ensures var (k, q) := ReadToken(old(tree.Value()), rd.src, old(rd.pos));
              rd.pos == q && tree.Value() == Updated(old(tree.Value()), Symbol(k)) && hist == Apply(hist0, k)
      ensures RingHolds(text[..], r, hist) && 0 <= r < N
      ensures out0 <= out && hist == hist0 + out[|out0|..]
    {
      hide Valid, Framed, RingHolds, Updated, BitReader.Valid;
      r, out, hist := r0, out0, hist0;
      var c := DecodeChar(rd);
      if c < 256 {
        r, out := Put(c, r, out, hist);
        hist := hist + [c];
      } else {
        var d := DecodePosition(rd);
        var i := (r - d - 1) % N;
        var j := c - 253;
        r, out, hist := CopyBack(i, j, r, out, d, hist);
      }
    }

    method FillWindow() returns (r: int)
      requires Ready()
      modifies text
      ensures RingHolds(text[..], r, FirstHistory(old(text[..]))) && 0 <= r < N
    {
      var i := 0;
      while i < N - F
        invariant 0 <= i <= N - F
        invariant forall k :: 0 <= k < text.Length ==> text[k] == if k < i then SPACE else old(text[k])
      {
        text[i] := SPACE;
        i := i + 1;
      }
      r := N - F;
    }

    /** Copy `len` bytes from slot `i` on, the window moving under the copy. */
    method CopyBack(i: int, len: nat, r0: int, out0: seq<Byte>, ghost d: nat, ghost hist0: seq<Byte>)
      returns (r: int, out: seq<Byte>, ghost hist: seq<Byte>)
      requires Ready() && RingHolds(text[..], r0, hist0) && |hist0| >= N
      requires 0 <= r0 < N && d < N && i == (r0 - d - 1) % N
      modifies text
      ensures hist == CopyFrom(hist0, d, len) && RingHolds(text[..], r, hist) && 0 <= r < N
      ensures out0 <= out && hist == hist0 + out[|out0|..]
    {
      hide RingHolds, CopyFrom;
      r, out, hist := r0, out0, hist0;
      var k := 0;
      while k < len
        invariant 0 <= k <= len && r == (r0 + k) % N && RingHolds(text[..], r, hist) && |hist| >= N
        invariant CopyFrom(hist, d, len - k) == CopyFrom(hist0, d, len)
        invariant out0 <= out && hist == hist0 + out[|out0|..]
      {
        CopyStep(hist, d, len - k);
        RingBack(text[..], r0, k, hist, d);
        NextSlot(r0, k);
        var c := text[(i + k) % N];
        r, out := Put(c, r, out, hist);
        assert out[|out0|..] == out[..|out| - 1][|out0|..] + [c];
        hist := hist + [c];
        k := k + 1;
      }
      CopyStep(hist, d, 0);
    }
  }
}
