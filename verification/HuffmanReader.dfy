/** Bit input of jdhuff.c: a 32-bit register filled from the segment's bytes, and symbols taken from it. */
module HuffmanReader {
  import opened Powers
  import opened ByteStream
  import opened BitString
  import opened HuffmanCode
  import opened HuffmanTables

  const MIN_GET_BITS: nat := 25

  function Zeros(n: nat): (r: seq<Bit>)
    ensures |r| == n
  {
    seq(n, _ => 0)
  }

  lemma {:induction false} ZeroBits(n: nat)
    ensures BitsOf(0, n) == Zeros(n)
  {
    if n > 0 {
      ZeroBits(n - 1);
    }
  }

  class BitReader {
    var getBuffer: nat          // current bit-extraction buffer
    var bitsLeft: nat           // number of unused bits in it
    var src: seq<byte>
    var pos: nat                // next byte to read
    var unreadMarker: nat       // the marker that ended the data, 0 if none yet
    var insufficient: bool      // set once zeros had to be supplied for missing data

    ghost var data: seq<byte>   // the segment's bytes without stuffing
    ghost var tail: seq<byte>   // the file from the end of the segment on
    ghost var fill: nat
    ghost var taken: nat        // how many data bytes have been loaded

    /** Starts at the beginning of a segment in a file. */
    constructor (src: seq<byte>, ghost data: seq<byte>, ghost tail: seq<byte>, ghost fill: nat)
      requires Terminator(tail, fill) && src == Stuff(data) + tail
      ensures Valid() && fresh(this) && !insufficient && this.data == data && this.tail == tail && this.fill == fill
      ensures taken <= |data| && Ahead() == Flat(data)
    {
      getBuffer, bitsLeft, this.src, pos, unreadMarker, insufficient := 0, 0, src, 0, 0, false;
      this.data, this.tail, this.fill, taken := data, tail, fill, 0;
      new;
      hide Stuff, Flat, Terminator;
      assert data[0..] == data && src[0..] == src;
    }

    /** A working copy. */
    constructor Copy(r: BitReader)
      ensures fresh(this)
      ensures getBuffer == r.getBuffer && bitsLeft == r.bitsLeft && src == r.src && pos == r.pos
      ensures unreadMarker == r.unreadMarker && insufficient == r.insufficient
      ensures data == r.data && tail == r.tail && fill == r.fill && taken == r.taken
    {
      getBuffer, bitsLeft, src, pos, unreadMarker, insufficient :=
        r.getBuffer, r.bitsLeft, r.src, r.pos, r.unreadMarker, r.insufficient;
      data, tail, fill, taken := r.data, r.tail, r.fill, r.taken;
    }

    ghost predicate SourceOk()
      reads this`src, this`pos, this`unreadMarker, this`data, this`tail, this`fill, this`taken
    {
      && Terminator(tail, fill) && taken <= |data| && pos <= |src|
      && if unreadMarker == 0 then src[pos..] == Stuff(data[taken..]) + tail
         else taken == |data| && unreadMarker == tail[fill] && src[pos..] == tail[fill + 1..]
    }

    ghost predicate Valid()
      reads this`getBuffer, this`bitsLeft,
            this`src, this`pos, this`unreadMarker, this`data, this`tail, this`fill, this`taken
    {
      SourceOk() && taken <= |data| && bitsLeft <= 32 && getBuffer < REGISTER
    }

    /** All bits still to come: those in the register, then those of the bytes not loaded yet. */
    ghost function Ahead(): seq<Bit>
      requires taken <= |data|
      reads this`getBuffer, this`bitsLeft, this`data, this`taken
    {
      BitsOf(getBuffer, bitsLeft) + Flat(data[taken..])
    }

    method GetByte() returns (b: byte)
      requires pos < |src|
      modifies this`pos
      ensures b == old(src[pos]) && pos == old(pos) + 1
    {
      b := src[pos];
      pos := pos + 1;
    }

    /** Reads on to the first byte that is not 0xFF: k places behind the 0xFF just read. */
    method SkipFill(ghost rest: seq<byte>, ghost k: nat) returns (d: byte)
      requires 1 <= pos <= |src| && rest == src[pos - 1..]
      requires 1 <= k < |rest| && rest[k] != 0xFF
      requires forall i :: 1 <= i < k ==> rest[i] == 0xFF
      modifies this`pos
      ensures d == rest[k] && pos == old(pos) + k && pos <= |src|
      ensures src[pos..] == rest[k + 1..]
    {
      ghost var p := pos;
      d := GetByte();
      assert d == rest[1];
      while d == 0xFF
        invariant 1 <= pos - p <= k && pos <= |src|
        invariant d == rest[pos - p]
        invariant d != 0xFF ==> pos - p == k
        decreases |src| - pos
      {
        d := GetByte();
        assert d == rest[pos - p];
      }
    }

    /** The next data byte, unless the marker that ends the segment comes first. */
    method NextByte() returns (found: bool, c: byte)
      requires SourceOk() && unreadMarker == 0
      modifies this`pos, this`unreadMarker, this`taken
      ensures SourceOk() && taken <= |data|
      ensures found <==> old(taken) < |data|
      ensures found ==> c == data[old(taken)] && taken == old(taken) + 1 && unreadMarker == 0
      ensures !found ==> taken == old(taken) && unreadMarker != 0
    {
      hide Stuff, StuffByte, Terminator;
      MarkerNotZero(tail, fill);
      ghost var k := ReadAhead(src[pos..], data, taken, tail, fill);
      ghost var rest := src[pos..];
      c := GetByte();
      found := true;
      if c == 0xFF {
        c := SkipFill(rest, k);
        if c == 0 {
          c := 0xFF;
        } else {
          unreadMarker := c;
          found := false;
        }
      }
      if found {
        taken := taken + 1;
      }
    }

    lemma MarkerNotZero(tail: seq<byte>, fill: nat)
      requires Terminator(tail, fill)
      ensures fill < |tail| && tail[fill] != 0
    {
    }

    /** Eight more bits in the register. */
    method LoadByte(c: byte)
      requires bitsLeft <= 24
      modifies this`getBuffer, this`bitsLeft
      ensures getBuffer < REGISTER && bitsLeft == old(bitsLeft) + 8
      ensures BitsOf(getBuffer, bitsLeft) == old(BitsOf(getBuffer, bitsLeft)) + BitsOf(c, 8)
    {
      hide BitsOf, Pow2;
      Pow2Values();
      RegisterSize();
      BitsAppend(getBuffer, bitsLeft, c, 8);
      BitsInRegister(getBuffer * 0x100 + c, 32, bitsLeft + 8);
      getBuffer := (getBuffer * 0x100 + c) % REGISTER;
      bitsLeft := bitsLeft + 8;
    }

    lemma FlatNext(n: nat)
      requires n < |data|
      ensures Flat(data[n..]) == BitsOf(data[n], 8) + Flat(data[n + 1..])
    {
      assert data[n..][1..] == data[n + 1..];
    }

    /**
      Loads at least nbits into the register; when the segment has fewer left, zeros are supplied and that is
      noted.
    */
    method FillBitBuffer(nbits: nat)
      requires Valid() && nbits <= MIN_GET_BITS
      modifies this`getBuffer, this`bitsLeft, this`pos, this`unreadMarker, this`taken, this`insufficient
      ensures Valid() && bitsLeft >= nbits
      ensures nbits <= |old(Ahead())| ==> Ahead() == old(Ahead()) && insufficient == old(insufficient)
      ensures nbits > |old(Ahead())| ==>
        insufficient && Ahead() == old(Ahead()) + Zeros(MIN_GET_BITS - |old(Ahead())|)
      ensures taken == |data| || bitsLeft >= MIN_GET_BITS
    {
      hide BitsOf, Flat, SourceOk;
      ghost var all := Ahead();
      var more := unreadMarker == 0;
      MarkerMeansEnd();
      while more && bitsLeft < MIN_GET_BITS
        invariant Valid() && Ahead() == all && insufficient == old(insufficient)
        invariant more <==> unreadMarker == 0
        invariant !more ==> taken == |data|
        decreases |data| - taken, more
      {
        ghost var n := taken;
        var c;
        more, c := NextByte();
        if more {
          FlatNext(n);
          LoadByte(c);
        }
      }
      if !more {
        NothingLeft();
        if nbits > bitsLeft {
          insufficient := true;
          ShiftInZeros(MIN_GET_BITS - bitsLeft);
        }
      }
    }

    lemma MarkerMeansEnd()
      requires SourceOk()
      ensures taken <= |data| && (unreadMarker != 0 ==> taken == |data|)
    {
    }

    lemma NothingLeft()
      requires taken == |data|
      ensures Flat(data[taken..]) == []
    {
      assert data[taken..] == [];
    }

    method ShiftInZeros(n: nat)
      requires bitsLeft + n <= 32
      modifies this`getBuffer, this`bitsLeft
      ensures getBuffer < REGISTER && bitsLeft == old(bitsLeft) + n
      ensures BitsOf(getBuffer, bitsLeft) == old(BitsOf(getBuffer, bitsLeft)) + Zeros(n)
    {
      hide BitsOf, Pow2;
      RegisterSize();
      ZeroBits(n);
      BitsAppend(getBuffer, bitsLeft, 0, n);
      BitsInRegister(getBuffer * Pow2(n), 32, bitsLeft + n);
      getBuffer := getBuffer * Pow2(n) % REGISTER;
      bitsLeft := bitsLeft + n;
    }

    /** The next n bits of the register, without removing them. */
    method PeekBits(n: nat) returns (v: nat)
      requires n <= bitsLeft
      ensures v < Pow2(n) && BitsOf(v, n) == BitsOf(getBuffer, bitsLeft)[..n]
    {
      hide BitsOf, Pow2;
      BitsSplit(getBuffer, bitsLeft, n);
      BitsLow(getBuffer / Pow2(bitsLeft - n), n);
      v := getBuffer / Pow2(bitsLeft - n) % Pow2(n);
    }

    method DropBits(n: nat)
      requires n <= bitsLeft
      modifies this`bitsLeft
      ensures bitsLeft == old(bitsLeft) - n
      ensures BitsOf(getBuffer, bitsLeft) == old(BitsOf(getBuffer, bitsLeft))[n..]
    {
      hide BitsOf, Pow2;
      BitsSplit(getBuffer, bitsLeft, n);
      BitsLow(getBuffer, bitsLeft - n);
      bitsLeft := bitsLeft - n;
    }

    /** CHECK_BIT_BUFFER and GET_BITS: takes the next n bits, which are those of x. */
    method TakeBits(n: nat, ghost x: nat, ghost more: seq<Bit>) returns (v: nat)
      requires Valid() && n <= 16 && x < Pow2(n) && Ahead() == BitsOf(x, n) + more
      modifies this`getBuffer, this`bitsLeft, this`pos, this`unreadMarker, this`taken, this`insufficient
      ensures Valid() && taken <= |data| && Ahead() == more && v == x && insufficient == old(insufficient)
    {
      hide BitsOf, Flat, Pow2, SourceOk;
      if bitsLeft < n {
        FillBitBuffer(n);
      }
      ghost var reg, rest := BitsOf(getBuffer, bitsLeft), Flat(data[taken..]);
      v := PeekBits(n);
      SplitAhead(reg, rest, BitsOf(x, n), more);
      BitsUnique(v, x, n);
      DropBits(n);
    }

    /** The next bits are in the register, the others follow. */
    lemma SplitAhead(reg: seq<Bit>, rest: seq<Bit>, head: seq<Bit>, more: seq<Bit>)
      requires reg + rest == head + more && |head| <= |reg|
      ensures reg[..|head|] == head && reg[|head|..] + rest == more
    {
      assert (reg + rest)[..|head|] == reg[..|head|];
      assert (reg + rest)[|head|..] == reg[|head|..] + rest;
      assert (head + more)[..|head|] == head;
      assert (head + more)[|head|..] == more;
    }

    /** Takes the i-th code of a table bit by bit, given that it has at least minBits; returns its symbol. */
    method SlowDecode(d: DecoderTable, minBits: nat, ghost t: Table, ghost i: nat, ghost more: seq<Bit>)
        returns (symbol: nat)
      requires Valid() && d.For(t) && Fits(t.Sizes()) && i < |t.Sizes()|
      requires 1 <= minBits <= t.Sizes()[i] && Ahead() == Codeword(t.Sizes(), i) + more
      modifies this`getBuffer, this`bitsLeft, this`pos, this`unreadMarker, this`taken, this`insufficient
      ensures Valid() && Ahead() == more && insufficient == old(insufficient)
      ensures symbol == t.huffval[i]
    {
      hide BitsOf, Flat, Pow2, Code, CodeTop, Codeword, Fits, SourceOk, Expand, LooksUp, Decides;
      ghost var s := t.Sizes();
      var l := minBits;
      CodeStarts(s, i, l);
      var code: nat := TakeBits(l, CodeTop(s, i, l), Codeword(s, i)[l..] + more);
      DecidesAt(s, i, l, d.maxcode[l], d.valoffset[l]);
      while code > d.maxcode[l]
        invariant Valid() && minBits <= l <= s[i] && code == CodeTop(s, i, l)
        invariant Ahead() == Codeword(s, i)[l..] + more && insufficient == old(insufficient)
        invariant code <= d.maxcode[l] <==> l == s[i]
        invariant l == s[i] ==> code + d.valoffset[l] == i
        decreases s[i] - l
      {
        CodeGoesOn(s, i, l);
        code := code * 2;
        var bit := TakeBits(1, CodeTop(s, i, l + 1) % 2, Codeword(s, i)[l + 1..] + more);
        code := code + bit;
        l := l + 1;
        DecidesAt(s, i, l, d.maxcode[l], d.valoffset[l]);
      }
      symbol := 0;
      if l <= 16 {
        symbol := d.huffval[code + d.valoffset[l]];
      }
    }

    lemma DecidesAt(s: seq<nat>, i: nat, l: nat, maxcode: int, valoffset: int)
      requires Lengths(s) && i < |s| && 1 <= l <= s[i] && Decides(s, l, maxcode, valoffset)
      ensures CodeTop(s, i, l) <= maxcode <==> l == s[i]
      ensures l == s[i] ==> CodeTop(s, i, l) + valoffset == i
    {
      hide Code;
      assert Pow2(0) == 1;
    }

    lemma CodeStarts(s: seq<nat>, i: nat, l: nat)
      requires Lengths(s) && Fits(s) && i < |s| && l <= s[i]
      ensures CodeTop(s, i, l) < Pow2(l) && Codeword(s, i) == BitsOf(CodeTop(s, i, l), l) + Codeword(s, i)[l..]
    {
      hide BitsOf, Pow2, Code, Fits;
      CodeBound(s, i);
      BitsSplit(Code(s, i), s[i], l);
      Pow2Sum(l, s[i] - l);
      assert l + (s[i] - l) == s[i];
      QuotientBelow(Code(s, i), Pow2(l), Pow2(s[i] - l));
    }

    lemma CodeGoesOn(s: seq<nat>, i: nat, l: nat)
      requires Lengths(s) && i < |s| && l < s[i]
      ensures var top := CodeTop(s, i, l + 1);
        && CodeTop(s, i, l) * 2 + top % 2 == top
        && Codeword(s, i)[l..] == BitsOf(top % 2, 1) + Codeword(s, i)[l + 1..] && top % 2 < Pow2(1)
    {
      hide BitsOf, Pow2, Code;
      TopHalves(Code(s, i), s[i] - l - 1);
      BitsSplit(Code(s, i), s[i], l + 1);
      OneBit(CodeTop(s, i, l + 1), l, Codeword(s, i));
    }

    lemma TopHalves(c: nat, n: nat)
      ensures c / Pow2(n + 1) * 2 + c / Pow2(n) % 2 == c / Pow2(n) && Pow2(1) == 2
    {
      HalveAgain(c, Pow2(n));
    }

    lemma OneBit(v: nat, l: nat, word: seq<Bit>)
      requires l < |word| && word[..l + 1] == BitsOf(v, l + 1)
      ensures word[l..] == BitsOf(v % 2, 1) + word[l + 1..]
    {
      assert word[..l + 1][l] == v % 2;
      assert BitsOf(v % 2, 1) == [v % 2];
    }

    lemma LookStartsShort(s: seq<nat>, i: nat, look: nat, reg: seq<Bit>, rest: seq<Bit>, more: seq<Bit>)
      requires Lengths(s) && Fits(s) && i < |s| && look < 0x100 && s[i] <= 8
      requires reg + rest == Codeword(s, i) + more && |reg| >= 8 && BitsOf(look, 8) == reg[..8]
      ensures look / Pow2(8 - s[i]) == Code(s, i)
    {
      hide BitsOf, Pow2, Code, Fits, Codeword;
      var word, n := Codeword(s, i), s[i];
      CodeBound(s, i);
      CodewordIs(s, i);
      Pow2Values();
      assert (word + more)[..n] == word && reg[..8][..n] == (reg + rest)[..n];
      FirstBits(look, 8, n, Code(s, i));
    }

    /** The first n of w bits are a number's high bits. */
    lemma FirstBits(v: nat, w: nat, n: nat, c: nat)
      requires n <= w && v < Pow2(w) && c < Pow2(n) && BitsOf(v, w)[..n] == BitsOf(c, n)
      ensures v / Pow2(w - n) == c
    {
      hide BitsOf, Pow2;
      BitsSplit(v, w, n);
      Pow2Sum(n, w - n);
      assert n + (w - n) == w;
      QuotientBelow(v, Pow2(n), Pow2(w - n));
      BitsUnique(v / Pow2(w - n), c, n);
    }

    lemma LookStartsLong(s: seq<nat>, i: nat, look: nat, reg: seq<Bit>, rest: seq<Bit>, more: seq<Bit>)
      requires Lengths(s) && Fits(s) && i < |s| && look < 0x100 && s[i] > 8
      requires reg + rest == Codeword(s, i) + more && |reg| >= 8 && BitsOf(look, 8) == reg[..8]
      ensures look == Code(s, i) / Pow2(s[i] - 8)
    {
      hide BitsOf, Pow2, Code, Fits, Codeword;
      var word := Codeword(s, i);
      Pow2Values();
      assert (reg + rest)[..8] == reg[..8] && (word + more)[..8] == word[..8];
      CodeStarts(s, i, 8);
      assert word[..8] == BitsOf(CodeTop(s, i, 8), 8);
      BitsUnique(look, CodeTop(s, i, 8), 8);
    }

    lemma CodewordIs(s: seq<nat>, i: nat)
      requires Lengths(s) && i < |s|
      ensures Codeword(s, i) == BitsOf(Code(s, i), s[i])
    {
    }

    /** What the table says about 8 bits that start with the i-th code. */
    lemma LookFinds(t: Table, d: DecoderTable, i: nat, look: nat, reg: seq<Bit>, rest: seq<Bit>, more: seq<Bit>)
      requires d.For(t) && Fits(t.Sizes()) && i < |t.Sizes()| && look < Pow2(8)
      requires reg + rest == Codeword(t.Sizes(), i) + more && |reg| >= 8 && BitsOf(look, 8) == reg[..8]
      ensures look < 0x100 && t.huffval[i] < 0x100
      ensures d.lookup[look] == if t.Sizes()[i] <= 8 then t.Sizes()[i] * 0x100 + t.huffval[i] else TOO_LONG
    {
      hide BitsOf, Pow2, Code, Fits, Codeword, Expand, Decides;
      Pow2Values();
      if t.Sizes()[i] <= 8 {
        LookStartsShort(t.Sizes(), i, look, reg, rest, more);
      } else {
        LookStartsLong(t.Sizes(), i, look, reg, rest, more);
      }
    }

    /** HUFF_DECODE: the lookahead table decides codes of up to 8 bits, the others are collected bit by bit. */
    method Decode(d: DecoderTable, ghost t: Table, ghost i: nat, ghost more: seq<Bit>) returns (symbol: nat)
      requires Valid() && d.For(t) && Fits(t.Sizes()) && i < |t.Sizes()|
      requires Ahead() == Codeword(t.Sizes(), i) + more
      modifies this`getBuffer, this`bitsLeft, this`pos, this`unreadMarker, this`taken, this`insufficient
      ensures Valid() && taken <= |data| && Ahead() == more && insufficient == old(insufficient)
      ensures symbol == t.huffval[i]
    {
      hide BitsOf, Flat, Pow2, Code, Codeword, Fits, SourceOk, Expand, LooksUp, Decides;
      var nb := 1;
      if bitsLeft < HUFF_LOOKAHEAD {
        FillBitBuffer(0);
      }
      if bitsLeft >= HUFF_LOOKAHEAD {
        var look := PeekBits(HUFF_LOOKAHEAD);
        ghost var reg, rest := BitsOf(getBuffer, bitsLeft), Flat(data[taken..]);
        LookFinds(t, d, i, look, reg, rest, more);
        nb := d.lookup[look] / 0x100;
        if nb <= HUFF_LOOKAHEAD {
          SplitAhead(reg, rest, Codeword(t.Sizes(), i), more);
          DropBits(nb);
          return d.lookup[look] % 0x100;
        }
      }
      symbol := SlowDecode(d, nb, t, i, more);
    }

    // ---- restart markers ----

    /** Finds the marker that ends the segment, all of whose bytes have been taken. */
    method NextMarker()
      requires SourceOk() && unreadMarker == 0 && taken == |data|
      modifies this`pos, this`unreadMarker
      ensures SourceOk() && unreadMarker != 0
    {
      hide Stuff, StuffByte, Terminator;
      MarkerNotZero(tail, fill);
      ghost var k := ReadAhead(src[pos..], data, taken, tail, fill);
      ghost var rest := src[pos..];
      MarkerNext(rest);
      var c := GetByte();
      c := SkipFill(rest, k);
      unreadMarker := c;
    }

    lemma MarkerNext(rest: seq<byte>)
      requires Terminator(tail, fill) && taken == |data| && rest == Stuff(data[taken..]) + tail
      ensures |rest| > 0 && rest[0] == 0xFF
    {
      assert data[taken..] == [];
    }

    /** Throws away the bits left over, and passes the restart marker of the expected number. */
    method PassMarker(num: nat, ghost next: seq<byte>, ghost nextTail: seq<byte>, ghost nextFill: nat)
      requires Valid() && taken == |data|
      requires fill < |tail| && tail[fill] == 0xD0 + num && tail[fill + 1..] == Stuff(next) + nextTail
      requires Terminator(nextTail, nextFill)
      modifies this
      ensures Valid() && taken <= |data| && insufficient == old(insufficient) && unreadMarker == 0
      ensures data == next && tail == nextTail && fill == nextFill && Ahead() == Flat(next)
    {
      hide Stuff, StuffByte, Terminator, Flat;
      bitsLeft := 0;
      if unreadMarker == 0 {
        NextMarker();
      }
      if unreadMarker == 0xD0 + num {
        unreadMarker := 0;
      }
      data, tail, fill, taken := next, nextTail, nextFill, 0;
      assert data[0..] == data;
    }

    // ---- the fast path, for a buffer that holds enough bytes ----

    /** The fast path stays in front of the marker that it meets. */
    ghost predicate FastOk()
      reads this`getBuffer, this`bitsLeft,
            this`src, this`pos, this`unreadMarker, this`data, this`tail, this`fill, this`taken
    {
      && Terminator(tail, fill) && taken <= |data| && pos <= |src| && src[pos..] == Stuff(data[taken..]) + tail
      && (unreadMarker != 0 ==> taken == |data|)
      && bitsLeft <= 32 && getBuffer < REGISTER
    }

    ghost predicate SameState(r: BitReader)
      reads this, r
    {
      && getBuffer == r.getBuffer && bitsLeft == r.bitsLeft && src == r.src && pos == r.pos
      && unreadMarker == r.unreadMarker
      && data == r.data && tail == r.tail && fill == r.fill && taken == r.taken
    }

    /** Before a marker is met, both paths mean the same by their state. */
    lemma FastIsValid(r: BitReader)
      requires SameState(r) && unreadMarker == 0
      ensures Valid() <==> r.FastOk()
      ensures r.FastOk() ==> taken <= |data| && Ahead() == r.Ahead()
    {
    }

    /** The next two bytes tell a data byte from a marker. */
    lemma FastAhead()
      requires FastOk()
      ensures pos + 1 < |src|
      ensures taken < |data| ==> src[pos] == data[taken]
      ensures taken < |data| && src[pos] == 0xFF ==>
        src[pos + 1] == 0 && src[pos + 2..] == Stuff(data[taken + 1..]) + tail
      ensures taken < |data| && src[pos] != 0xFF ==> src[pos + 1..] == Stuff(data[taken + 1..]) + tail
      ensures taken == |data| ==> src[pos] == 0xFF && src[pos + 1] != 0
    {
      hide StuffByte, Stuff;
      var rest := src[pos..];
      if taken < |data| {
        StuffHead(data, taken, tail);
        assert rest[1..] == src[pos + 1..];
        if data[taken] == 0xFF {
          assert rest[2..] == src[pos + 2..];
        } else {
          assert |rest| == 1 + |Stuff(data[taken + 1..])| + |tail|;
        }
      } else {
        NothingStuffed();
        assert rest == tail && rest[0] == src[pos] && rest[1] == src[pos + 1];
      }
    }

    lemma NothingStuffed()
      ensures Stuff(data[|data|..]) == []
    {
    }

    /** GET_BYTE: one data byte, or eight zero bits once the marker is next. */
    method FastByte() returns (ghost z: nat)
      requires FastOk() && bitsLeft <= 24
      modifies this`getBuffer, this`bitsLeft, this`pos, this`unreadMarker, this`taken
      ensures FastOk() && bitsLeft == old(bitsLeft) + 8 && pos <= old(pos) + 2
      ensures Ahead() == old(Ahead()) + Zeros(z)
      ensures old(unreadMarker) != 0 || z > 0 ==> unreadMarker != 0
    {
      hide BitsOf, Flat, Pow2, Stuff, Terminator;
      FastAhead();
      ghost var n, reg := taken, BitsOf(getBuffer, bitsLeft);
      var c0, c1 := src[pos], src[pos + 1];
      pos := pos + 1;
      LoadByte(c0);
      z := 0;
      if c0 == 0xFF {
        pos := pos + 1;
        if c1 != 0 {
          unreadMarker := c1;
          pos := pos - 2;
          z := ClearByte(reg);
        }
      }
      if taken < |data| {
        FlatNext(n);
        taken := taken + 1;
      } else {
        NothingLeft();
      }
    }

    /** Backs out a byte of ones: zeros in its place. */
    method ClearByte(ghost reg: seq<Bit>) returns (ghost z: nat)
      requires 8 <= bitsLeft <= 32 && getBuffer < REGISTER
      requires BitsOf(getBuffer, bitsLeft) == reg + BitsOf(0xFF, 8)
      modifies this`getBuffer
      ensures getBuffer < REGISTER && z == 8
      ensures BitsOf(getBuffer, bitsLeft) == reg + Zeros(8)
    {
      hide BitsOf, Pow2;
      Pow2Values();
      z := 8;
      ghost var n := bitsLeft - 8;
      BitsSplit(getBuffer, bitsLeft, n);
      ZeroBits(8);
      BitsAppend(getBuffer / 0x100, n, 0, 8);
      assert BitsOf(getBuffer, bitsLeft)[..n] == reg;
      getBuffer := getBuffer - getBuffer % 0x100;
    }

    /** FILL_BIT_BUFFER_FAST: at least 16 bits in the register. */
    method FastFill() returns (ghost z: nat)
      requires FastOk()
      modifies this`getBuffer, this`bitsLeft, this`pos, this`unreadMarker, this`taken
      ensures FastOk() && bitsLeft >= 16 && pos <= old(pos) + 4
      ensures Ahead() == old(Ahead()) + Zeros(z)
      ensures old(unreadMarker) != 0 || z > 0 ==> unreadMarker != 0
    {
      hide BitsOf, Flat, FastOk;
      FastBounds();
      z := 0;
      if bitsLeft <= 16 {
        ghost var z1 := FastByte();
        ghost var z2 := FastByte();
        FastBounds();
        z := z1 + z2;
        assert Zeros(z1) + Zeros(z2) == Zeros(z);
      }
    }

    lemma FastBounds()
      requires FastOk()
      ensures taken <= |data| && bitsLeft <= 32
    {
    }

    /** GET_BITS from a register that holds enough. */
    method GetBits(n: nat, ghost x: nat, ghost more: seq<Bit>) returns (v: nat)
      requires n <= bitsLeft && taken <= |data| && x < Pow2(n) && Ahead() == BitsOf(x, n) + more
      modifies this`bitsLeft
      ensures Ahead() == more && v == x && bitsLeft == old(bitsLeft) - n
    {
      hide BitsOf, Flat, Pow2;
      ghost var reg, rest := BitsOf(getBuffer, bitsLeft), Flat(data[taken..]);
      v := PeekBits(n);
      SplitAhead(reg, rest, BitsOf(x, n), more);
      BitsUnique(v, x, n);
      DropBits(n);
    }

    /** Refills the register and takes n bits. */
    method FastBits(n: nat, ghost x: nat, ghost more: seq<Bit>) returns (v: nat, ghost z: nat)
      requires FastOk() && n <= 16 && x < Pow2(n) && Ahead() == BitsOf(x, n) + more
      modifies this`getBuffer, this`bitsLeft, this`pos, this`unreadMarker, this`taken
      ensures FastOk() && taken <= |data| && v == x && pos <= old(pos) + 4
      ensures Ahead() == more + Zeros(z)
      ensures old(unreadMarker) != 0 || z > 0 ==> unreadMarker != 0
    {
      hide BitsOf, Flat, Pow2, Stuff, Terminator;
      z := FastFill();
      assert BitsOf(x, n) + more + Zeros(z) == BitsOf(x, n) + (more + Zeros(z));
      v := GetBits(n, x, more + Zeros(z));
    }

    /** HUFF_DECODE_FAST: the lookahead table first, then bit by bit without refilling. */
    method FastDecode(d: DecoderTable, ghost t: Table, ghost i: nat, ghost more: seq<Bit>)
        returns (symbol: nat, ghost z: nat)
      requires FastOk() && d.For(t) && Fits(t.Sizes()) && i < |t.Sizes()|
      requires Ahead() == Codeword(t.Sizes(), i) + more
      modifies this`getBuffer, this`bitsLeft, this`pos, this`unreadMarker, this`taken
      ensures FastOk() && taken <= |data| && symbol == t.huffval[i] && pos <= old(pos) + 4
      ensures Ahead() == more + Zeros(z)
      ensures old(unreadMarker) != 0 || z > 0 ==> unreadMarker != 0
    {
      hide BitsOf, Flat, Pow2, Code, Codeword, Fits, Expand, LooksUp, Decides, Stuff, Terminator;
      z := FastFill();
      ghost var s, after := t.Sizes(), more + Zeros(z);
      assert Codeword(s, i) + more + Zeros(z) == Codeword(s, i) + after;
      ghost var reg, rest := BitsOf(getBuffer, bitsLeft), Flat(data[taken..]);
      var look := PeekBits(HUFF_LOOKAHEAD);
      LookFinds(t, d, i, look, reg, rest, after);
      SplitAhead(reg, rest, if s[i] <= 8 then Codeword(s, i) else Codeword(s, i)[..9],
                 if s[i] <= 8 then after else Codeword(s, i)[9..] + after);
      var entry := d.lookup[look];
      var nb := entry / 0x100;
      var top := PeekBits(nb);
      DropBits(nb);
      symbol := entry % 0x100;
      if nb > HUFF_LOOKAHEAD {
        TopOfLong(s, i, top, reg);
        symbol := FastLong(d, top, t, i, after);
      }
    }

    lemma TopOfLong(s: seq<nat>, i: nat, top: nat, reg: seq<Bit>)
      requires Lengths(s) && Fits(s) && i < |s| && s[i] >= 9 && |reg| >= 9
      requires top < Pow2(9) && BitsOf(top, 9) == reg[..9] == Codeword(s, i)[..9]
      ensures top == CodeTop(s, i, 9)
    {
      hide BitsOf, Pow2, Code, Fits, Codeword, CodeTop;
      CodeStarts(s, i, 9);
      assert Codeword(s, i)[..9] == BitsOf(CodeTop(s, i, 9), 9);
      BitsUnique(top, CodeTop(s, i, 9), 9);
    }

    /** The rest of a code of more than 8 bits, after its first 9. */
    method FastLong(d: DecoderTable, top: nat, ghost t: Table, ghost i: nat, ghost more: seq<Bit>) returns (symbol: nat)
      requires FastOk() && d.For(t) && Fits(t.Sizes()) && i < |t.Sizes()| && t.Sizes()[i] >= 9
      requires top == CodeTop(t.Sizes(), i, 9) && bitsLeft >= 7
      requires Ahead() == Codeword(t.Sizes(), i)[9..] + more
      modifies this`bitsLeft
      ensures FastOk() && Ahead() == more && symbol == t.huffval[i]
    {
      hide BitsOf, Flat, Pow2, Code, CodeTop, Codeword, Fits, Expand, LooksUp, Decides, Stuff, Terminator;
      ghost var s := t.Sizes();
      var nb, code := 9, top;
      DecidesAt(s, i, nb, d.maxcode[nb], d.valoffset[nb]);
      while code > d.maxcode[nb]
        invariant FastOk() && 9 <= nb <= s[i] && code == CodeTop(s, i, nb) && bitsLeft >= 16 - nb
        invariant Ahead() == Codeword(s, i)[nb..] + more
        invariant code <= d.maxcode[nb] <==> nb == s[i]
        invariant nb == s[i] ==> code + d.valoffset[nb] == i
        decreases s[i] - nb
      {
        CodeGoesOn(s, i, nb);
        code := code * 2;
        var bit := GetBits(1, CodeTop(s, i, nb + 1) % 2, Codeword(s, i)[nb + 1..] + more);
        code := code + bit;
        nb := nb + 1;
        DecidesAt(s, i, nb, d.maxcode[nb], d.valoffset[nb]);
      }
      symbol := d.huffval[(code + d.valoffset[nb]) % 0x100];
    }
  }
}
