/** `readChar`, `GetBit` and `GetByte` over the shift register. */
module LzhReader {
  import opened Numbers
  import opened BitOps
  import opened LzhBits

  class BitReader {
    var src: seq<Byte>        // the packed bytes
    var ptr: nat              // the next one to fetch
    var getbuf: nat           // the register, 32 bits wide
    var getlen: nat           // how many of its bits are waiting
    ghost var pos: nat        // how many bits have been delivered

    ghost predicate Valid()
      reads this
    {
      && getlen <= 16 && Holds(src, pos, getbuf, getlen)
      && (pos + getlen) % 8 == 0
      && ptr == Min((pos + getlen) / 8, |src|)
    }

    constructor (bytes: seq<Byte>)
      ensures Valid() && src == bytes && pos == 0 && getlen == 0
    {
      src, ptr, getbuf, getlen, pos := bytes, 0, 0, 0, 0;
      new;
      ShlZero(16);
    }

    method ReadChar() returns (c: int)
      modifies this`ptr
      ensures if old(ptr) < |src| then c == src[old(ptr)] as int && ptr == old(ptr) + 1
              else c == -1 && ptr == old(ptr)
    {
      if ptr < |src| {
        c := src[ptr] as int;
        ptr := ptr + 1;
      } else {
        c := -1;
      }
    }

    /** Fill the register up to more than eight waiting bits. */
    method Fill()
      requires Valid()
      modifies this`ptr, this`getbuf, this`getlen
      ensures Valid()
      ensures getlen == if old(getlen) == 0 then 16 else if old(getlen) <= 8 then old(getlen) + 8 else old(getlen)
    {
      while getlen <= 8
        invariant Valid()
        invariant getlen == old(getlen) || (old(getlen) <= 8 && getlen == old(getlen) + 8)
                  || (old(getlen) == 0 && getlen == 16)
        decreases 16 - getlen
      {
        FillByte();
      }
    }

    method FillByte()
      requires Valid() && getlen <= 8
      modifies this`ptr, this`getbuf, this`getlen
      ensures Valid() && getlen == old(getlen) + 8
    {
      hide Holds, BitsValue, StreamBit, Shl, Or;
      var i := ReadChar();
      if i == -1 { i := 0; }
      ByteAt(src, (pos + getlen) / 8);
      LoadByte(src, pos, getbuf, getlen, i);
      getbuf := Or(getbuf, Shl(i, 8 - getlen));
      getlen := getlen + 8;
    }

    /** The next bit of the input. */
    method GetBit() returns (b: bit)
      requires Valid()
      modifies this`ptr, this`getbuf, this`getlen, this`pos
      ensures Valid() && pos == old(pos) + 1 && b == StreamBit(src, old(pos))
      ensures 8 <= getlen <= 15
    {
      hide Holds, BitsValue, StreamBit, Shl, Shr;
      Fill();
      var i := getbuf;
      TakeTop(src, pos, getbuf, getlen, 1);
      TakeRest(src, pos, getbuf, getlen, 1);
      OneBit(src, pos);
      LowBit(getbuf);
      getbuf := Shl(getbuf, 1) % 0x1_0000_0000;
      getlen := getlen - 1;
      pos := pos + 1;
      b := Shr(i, 15) % 2;
    }

    /** The next eight bits of the input, as a number. */
    method GetByte() returns (b: nat)
      requires Valid()
      modifies this`ptr, this`getbuf, this`getlen, this`pos
      ensures Valid() && pos == old(pos) + 8 && b == BitsValue(src, old(pos), 8)
      ensures 1 <= getlen <= 8
    {
      hide Holds, BitsValue, StreamBit, Shl, Shr;
      Fill();
      var i := getbuf;
      TakeTop(src, pos, getbuf, getlen, 8);
      TakeRest(src, pos, getbuf, getlen, 8);
      LowByte(getbuf);
      getbuf := Shl(getbuf, 8) % 0x1_0000_0000;
      getlen := getlen - 8;
      pos := pos + 8;
      b := Shr(i, 8) % 256;
    }
  }

  lemma OneBit(src: seq<Byte>, p: nat)
    ensures BitsValue(src, p, 1) == StreamBit(src, p)
  {
    assert BitsValue(src, p, 0) == 0;
  }

  /** Bit 15 and the byte above bit 8 do not depend on the upper half of the register. */
  lemma LowBit(v: nat)
    ensures Shr(v, 15) % 2 == Shr(v % 0x1_0000, 15)
  {
    hide Shr;
    ShrDiv15(v);
    ShrDiv15(v % 0x1_0000);
  }

  lemma LowByte(v: nat)
    ensures Shr(v, 8) % 256 == Shr(v % 0x1_0000, 8)
  {
    hide Shr;
    ShrDiv8(v);
    ShrDiv8(v % 0x1_0000);
  }

  lemma ShrDiv8(v: nat)
    ensures Shr(v, 8) == v / 256
  {
    assert Shr(v, 1) == v / 2;
    assert Shr(v, 2) == v / 4;
    assert Shr(v, 4) == v / 16;
    assert Shr(v, 6) == v / 64;
  }

  lemma ShrDiv15(v: nat)
    ensures Shr(v, 15) == v / 0x8000
  {
    ShrDiv8(v);
    assert Shr(v, 10) == v / 1024;
    assert Shr(v, 12) == v / 4096;
    assert Shr(v, 14) == v / 16384;
  }
}
