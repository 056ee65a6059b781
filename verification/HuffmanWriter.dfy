/** Bit output of jchuff.c: a 32-bit buffer register, byte stuffing, and padding with ones. */
module HuffmanWriter {
  import opened Powers
  import opened ByteStream
  import opened BitString


  class BitWriter {
    var putBuffer: nat      // bit-accumulation buffer
    var putBits: nat        // number of bits now in it
    var out: seq<byte>

    ghost var before: seq<byte>     // what was in the file when the segment began
    ghost var data: seq<byte>       // the bytes of the segment, before stuffing
    ghost var bits: seq<Bit>        // all bits put into the segment

    /** In the middle of an operation. */
    ghost predicate Loaded()
      reads this
    {
      && putBuffer < REGISTER && putBits <= 32
      && out == before + Stuff(data)
      && bits == Flat(data) + BitsOf(putBuffer, putBits)
    }

    /** Between operations, at most 15 bits remain. */
    ghost predicate Valid()
      reads this
    {
      Loaded() && putBits <= 15
    }

    constructor ()
      ensures Valid() && fresh(this) && out == before == [] && bits == []
    {
      putBuffer, putBits, out := 0, 0, [];
      before, data, bits := [], [], [];
    }

    /** Writes the top byte of the register, and a zero byte after 0xFF. */
    method EmitByte()
      requires Loaded() && putBits >= 8
      modifies this`putBits, this`out, this`data
      ensures Loaded() && putBits == old(putBits) - 8
    {
      hide BitsOf, Flat, Pow2, Stuff, StuffByte;
      TopByte(putBuffer, putBits);
      putBits := putBits - 8;
      var c: byte := putBuffer / Pow2(putBits) % 0x100;
      StuffSnoc(data, c);
      FlatSnoc(data, c);
      StuffByteIs(c);
      out := out + [c];
      data := data + [c];
      if c == 0xFF {
        out := out + [0];
      }
    }

    lemma StuffByteIs(c: byte)
      ensures StuffByte(c) == if c == 0xFF then [c] + [0] else [c]
    {
    }

    lemma TopByte(v: nat, n: nat)
      requires n >= 8
      ensures BitsOf(v, n) == BitsOf(v / Pow2(n - 8) % 0x100, 8) + BitsOf(v, n - 8)
    {
      hide BitsOf, Pow2;
      BitsSplit(v, n, 8);
      BitsLow(v, n - 8);
      BitsLow(v / Pow2(n - 8), 8);
      Pow2Values();
    }

    /** Adds the bits of a code that fits its size. */
    method PutBits(code: nat, size: nat)
      requires Loaded() && putBits + size <= 32 && code < Pow2(size)
      modifies this`putBuffer, this`putBits, this`bits
      ensures Loaded() && putBits == old(putBits) + size && bits == old(bits) + BitsOf(code, size)
    {
      hide BitsOf, Flat, Pow2, Stuff;
      BitsAppend(putBuffer, putBits, code, size);
      BitsInRegister(putBuffer * Pow2(size) + code, 32, putBits + size);
      RegisterSize();
      putBuffer := (putBuffer * Pow2(size) + code) % REGISTER;
      putBits := putBits + size;
      bits := bits + BitsOf(code, size);
    }

    /** Adds bits and writes two bytes when there are more than 15. */
    method EmitBits(code: nat, size: nat)
      requires Valid() && size <= 16 && code < Pow2(size)
      modifies this
      ensures Valid() && before == old(before) && bits == old(bits) + BitsOf(code, size)
    {
      hide BitsOf, Flat, Pow2, Stuff;
      PutBits(code, size);
      if putBits > 15 {
        EmitByte();
        EmitByte();
      }
    }

    /** Fills the last byte with ones and empties the register. */
    method FlushBits() returns (ghost pad: nat)
      requires Valid()
      modifies this
      ensures before == old(before) && out == before + Stuff(data)
      ensures pad < 8 && Flat(data) == old(bits) + seq(pad, _ => 1)
      ensures putBits == 0 && putBuffer == 0
    {
      hide BitsOf, Flat, Pow2, Stuff;
      SevenOnes();
      PutBits(0x7F, 7);
      ghost var all := bits;
      while putBits >= 8
        invariant Loaded() && bits == all && before == old(before) && putBits <= old(putBits) + 7
        decreases putBits
      {
        EmitByte();
      }
      pad := 7 - putBits;
      PaddingLeft(old(bits), Flat(data), BitsOf(putBuffer, putBits));
      putBuffer, putBits := 0, 0;
    }

    lemma SevenOnes()
      ensures Pow2(7) == 0x80 && BitsOf(0x7F, 7) == seq(7, _ => 1)
    {
      BitsOfOnes(7);
    }

    lemma PaddingLeft(was: seq<Bit>, whole: seq<Bit>, rest: seq<Bit>)
      requires was + seq(7, _ => 1) == whole + rest && |rest| <= 7
      ensures whole == was + seq(7 - |rest|, _ => 1)
    {
      assert whole == (whole + rest)[..|whole|];
    }

    /** Writes a restart marker after a flush, and begins the next segment. */
    method EmitMarker(code: byte)
      requires putBits == 0 && putBuffer == 0
      modifies this
      ensures Valid() && bits == [] && out == before == old(out) + [0xFF, code]
    {
      out := out + [0xFF];
      out := out + [code];
      before, data, bits := out, [], [];
    }
  }
}
