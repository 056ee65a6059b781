/** Bit output of jcphuff.c: pending bits are left-justified in the low 24 bits of the buffer register. */
module ProgressiveWriter {
  import opened Powers
  import opened ByteStream
  import opened BitString

  const FIELD: nat := 0x100_0000      // the 24 bits in use

  class JustifiedWriter {
    var putBuffer: nat
    var putBits: nat
    var out: seq<byte>

    ghost var pending: nat          // the bits not written yet, as a number
    ghost var before: seq<byte>
    ghost var data: seq<byte>
    ghost var bits: seq<Bit>        // all bits put into the segment

    ghost predicate Loaded()
      reads this
    {
      && putBuffer < REGISTER && putBits <= 24 && pending < Pow2(putBits)
      && putBuffer % FIELD == pending * Pow2(24 - putBits)
      && out == before + Stuff(data)
      && bits == Flat(data) + BitsOf(pending, putBits)
    }

    /** Between calls at most 7 bits are retained. */
    ghost predicate Valid()
      reads this
    {
      Loaded() && putBits <= 7
    }

    constructor ()
      ensures Valid() && fresh(this) && out == before == [] && bits == []
    {
      putBuffer, putBits, out := 0, 0, [];
      pending, before, data, bits := 0, [], [], [];
    }

    /** Merging new bits, aligned below the old ones. */
    lemma Merge(code: nat, size: nat)
      requires Loaded() && putBits + size <= 24 && code < Pow2(size)
      ensures var shift := 24 - putBits - size; var more := code * Pow2(shift);
        && more < FIELD && (putBuffer + more) % FIELD == (pending * Pow2(size) + code) * Pow2(shift)
        && pending * Pow2(size) + code < Pow2(putBits + size)
    {
      hide Flat, Stuff, BitsOf, Pow2;
      var shift := 24 - putBits - size;
      Pow2Sum(size, shift);
      Pow2Sum(putBits, size);
      Pow2Sum(putBits + size, shift);
      FieldSize();
      assert size + shift == 24 - putBits && putBits + size + shift == 24;
      Merged(putBuffer, pending, code, Pow2(putBits), Pow2(size), Pow2(shift));
    }

    /** The same with the powers as numbers of their own. */
    lemma Merged(buffer: nat, x: nat, code: nat, n: nat, s: nat, t: nat)
      requires n >= 1 && s >= 1 && t >= 1 && n * s * t == FIELD
      requires buffer % FIELD == x * (s * t) && x < n && code < s
      ensures code * t < FIELD && x * s + code < n * s
      ensures (buffer + code * t) % FIELD == (x * s + code) * t
    {
      Below(x, n, s, code);
      Below(x * s + code, n * s, t, 0);
      MulMonotone(code + 1, s, t);
      MulMonotone(1, n, s * t);
      assert (x * s + code) * t == x * (s * t) + code * t;
      assert n * s * t == n * (s * t);
      DivModUnique(buffer + code * t, buffer / FIELD, x * (s * t) + code * t, FIELD);
    }

    lemma Below(x: nat, n: nat, s: nat, y: nat)
      requires x < n && y < s
      ensures x * s + y < n * s
    {
      MulMonotone(x + 1, n, s);
    }

    lemma FieldSize()
      ensures Pow2(24) == FIELD
    {
      hide Pow2;
      Pow2Values();
      Pow2Sum(8, 16);
    }

    /** The top byte of the field, and what is left when it is shifted out. */
    lemma TopByte()
      requires Loaded() && putBits >= 8
      ensures var rest := pending % Pow2(putBits - 8);
        && BitsOf(pending, putBits) == BitsOf(putBuffer / 0x10000 % 0x100, 8) + BitsOf(rest, putBits - 8)
        && putBuffer * 0x100 % REGISTER % FIELD == rest * Pow2(24 - (putBits - 8))
        && rest < Pow2(putBits - 8)
    {
      hide Flat, Stuff, BitsOf, Pow2;
      var n := putBits - 8;
      Pow2Sum(n, 24 - putBits);
      Pow2Sum(8, 24 - putBits);
      Pow2Sum(8, n);
      Pow2Values();
      assert n + (24 - putBits) == 16 && 8 + (24 - putBits) == 24 - n && 8 + n == putBits;
      Shifted(putBuffer, pending, Pow2(n), Pow2(24 - putBits));
      BitsSplit(pending, putBits, 8);
    }

    lemma Shifted(buffer: nat, x: nat, q: nat, t: nat)
      requires q >= 1 && t >= 1 && q * t == 0x10000 && x < 0x100 * q && buffer % FIELD == x * t
      ensures buffer / 0x10000 % 0x100 == x / q
      ensures buffer * 0x100 % REGISTER % FIELD == x % q * (0x100 * t)
    {
      var h, l := x / q, x % q;
      QuotientBelow(x, 0x100, q);
      SplitField(h, l, q, t);
      MulMonotone(l + 1, q, t);
      TopOf(buffer, buffer / FIELD, h, l * t);
      Regroup256(l, t);
    }

    lemma Regroup256(l: nat, t: nat)
      ensures l * t * 0x100 == l * (0x100 * t)
    {
    }

    lemma SplitField(h: nat, l: nat, q: nat, t: nat)
      requires q * t == 0x10000
      ensures (h * q + l) * t == h * 0x10000 + l * t
    {
      assert (h * q + l) * t == h * (q * t) + l * t;
    }

    lemma TopOf(buffer: nat, f: nat, h: nat, l: nat)
      requires buffer == f * FIELD + h * 0x10000 + l && h < 0x100 && l < 0x10000
      ensures buffer / 0x10000 % 0x100 == h
      ensures buffer * 0x100 % REGISTER % FIELD == l * 0x100
    {
      DivModUnique(buffer, f * 0x100 + h, l, 0x10000);
      DivModUnique(f * 0x100 + h, f, h, 0x100);
      KeepField(buffer * 0x100);
      DivModUnique(buffer * 0x100, f * 0x100 + h, l * 0x100, FIELD);
    }

    lemma KeepField(v: nat)
      ensures v % REGISTER % FIELD == v % FIELD
    {
      var q, r := v / REGISTER, v % REGISTER;
      DivModUnique(v, q * 0x100 + r / FIELD, r % FIELD, FIELD);
    }

    /** Writes the top byte of the field, and a zero byte after 0xFF. */
    method EmitByte()
      requires Loaded() && putBits >= 8
      modifies this
      ensures Loaded() && putBits == old(putBits) - 8 && before == old(before) && bits == old(bits)
    {
      hide BitsOf, Flat, Pow2, Stuff, StuffByte;
      TopByte();
      var c: byte := putBuffer / 0x10000 % 0x100;
      StuffSnoc(data, c);
      FlatSnoc(data, c);
      StuffByteIs(c);
      out := out + [c];
      if c == 0xFF {
        out := out + [0];
      }
      data := data + [c];
      pending := pending % Pow2(putBits - 8);
      putBuffer := putBuffer * 0x100 % REGISTER;
      putBits := putBits - 8;
    }

    lemma StuffByteIs(c: byte)
      ensures StuffByte(c) == if c == 0xFF then [c] + [0] else [c]
    {
    }

    /** Emits the low size bits of code; a size of zero, which stands for a missing code, is refused. */
    method EmitBits(code: nat, size: nat) returns (ok: bool)
      requires Valid() && size <= 16
      modifies this
      ensures Valid() && before == old(before)
      ensures ok <==> size != 0
      ensures bits == old(bits) + BitsOf(code, size)
    {
      hide BitsOf, Flat, Pow2, Stuff;
      NoneOf(code);
      if size == 0 {
        return false;
      }
      ghost var all := bits + BitsOf(code, size);
      AddBits(code, size);
      while putBits >= 8
        invariant Loaded() && bits == all && before == old(before)
        decreases putBits
      {
        EmitByte();
      }
      ok := true;
    }

    lemma NoneOf(code: nat)
      ensures BitsOf(code, 0) == []
    {
    }

    /** Puts masked and aligned bits below the pending ones. */
    method AddBits(code: nat, size: nat)
      requires Valid() && 1 <= size <= 16
      modifies this`putBuffer, this`putBits, this`pending, this`bits
      ensures Loaded() && putBits == old(putBits) + size && bits == old(bits) + BitsOf(code, size)
    {
      hide BitsOf, Flat, Pow2, Stuff;
      BitsLow(code, size);
      var masked := code % Pow2(size);
      Merge(masked, size);
      BitsAppend(pending, putBits, masked, size);
      KeepField(putBuffer + masked * Pow2(24 - putBits - size));
      putBuffer := (putBuffer + masked * Pow2(24 - putBits - size)) % REGISTER;
      pending := pending * Pow2(size) + masked;
      putBits := putBits + size;
      bits := bits + BitsOf(code, size);
    }

    /** Fills the last byte with ones. */
    method FlushBits() returns (ghost pad: nat)
      requires Valid()
      modifies this
      ensures before == old(before) && out == before + Stuff(data)
      ensures pad < 8 && Flat(data) == old(bits) + seq(pad, _ => 1)
      ensures putBits == 0 && putBuffer == 0
    {
      hide BitsOf, Flat, Pow2, Stuff;
      SevenOnes();
      var ok := EmitBits(0x7F, 7);
      pad := 7 - putBits;
      PaddingLeft(old(bits), Flat(data), BitsOf(pending, putBits));
      putBuffer, putBits := 0, 0;
    }

    lemma SevenOnes()
      ensures BitsOf(0x7F, 7) == seq(7, _ => 1)
    {
      assert Pow2(7) == 0x80;
      BitsOfOnes(7);
    }

    lemma PaddingLeft(was: seq<Bit>, whole: seq<Bit>, rest: seq<Bit>)
      requires was + seq(7, _ => 1) == whole + rest && |rest| <= 7
      ensures whole == was + seq(7 - |rest|, _ => 1)
    {
      assert whole == (whole + rest)[..|whole|];
    }

    /** Writes a marker; what comes after it is a new segment. */
    method EmitMarker(code: byte)
      requires putBits == 0 && putBuffer == 0
      modifies this
      ensures Valid() && bits == [] && data == [] && out == before == old(out) + [0xFF, code]
    {
      out := out + [0xFF];
      out := out + [code];
      pending, before, data, bits := 0, out, [], [];
    }
  }
}
