/** Sequential Huffman decoding of blocks: the loops of decode_mcu_slow and decode_mcu_fast of jdhuff.c. */
module HuffmanDecoder {
  import opened Powers
  import opened BitString
  import opened Zigzag
  import opened Coefficients
  import opened HuffmanCode
  import opened HuffmanTables
  import opened HuffmanTokens
  import opened HuffmanReader

  /** What decode_mcu asks the input buffer to hold for each block before it takes the fast path. */
  const FAST_BYTES: nat := 512

  /** The derived tables of the decoder. */
  datatype Decoders = Decoders(dc: seq<DecoderTable>, ac: seq<DecoderTable>) {
    predicate Sized() {
      |dc| == |ac| == NUM_HUFF_TBLS
    }

    function Get(id: TableId): DecoderTable
      requires Sized() && id.n < NUM_HUFF_TBLS
    {
      if id.DcTable? then dc[id.n] else ac[id.n]
    }
  }

  /** The tables as transmitted. */
  datatype Tables = Tables(dc: seq<Table>, ac: seq<Table>) {
    predicate Sized() {
      |dc| == |ac| == NUM_HUFF_TBLS
    }

    function Get(id: TableId): Table
      requires Sized() && id.n < NUM_HUFF_TBLS
    {
      if id.DcTable? then dc[id.n] else ac[id.n]
    }
  }

  /** Encoder and decoder have derived their tables from the same one. */
  predicate Shared(coders: Coders, decoders: Decoders, tables: Tables, id: TableId) {
    && coders.Sized() && decoders.Sized() && tables.Sized() && id.n < NUM_HUFF_TBLS
    && coders.Get(id).For(tables.Get(id)) && decoders.Get(id).For(tables.Get(id)) && Fits(tables.Get(id).Sizes())
  }

  /** A symbol with a code has an index in the table, and the encoder's bits are its codeword. */
  lemma SymbolIndex(e: EncoderTable, t: Table, symbol: nat) returns (i: nat)
    requires e.For(t) && Covered(e, symbol)
    ensures i < |t.Sizes()| && t.huffval[i] == symbol && SymbolBits(e, symbol) == Codeword(t.Sizes(), i)
  {
    hide Pow2, Code, BitsOf, Expand;
    var symbols := t.huffval[..|t.Sizes()|];
    assert symbol in symbols;
    i :| 0 <= i < |symbols| && symbols[i] == symbol;
    assert Codes(t.Sizes())[i] == Code(t.Sizes(), i);
  }

  class BlockDecoder {
    const reader: BitReader
    const decoders: Decoders
    const fast: bool                // which of the two ways bits are read

    ghost const coders: Coders
    ghost const tables: Tables
    ghost var owed: seq<Token>      // the tokens still to come
    ghost var rest: seq<Bit>        // the bits after them
    ghost var zeros: nat            // zero bits made up at the end, once the marker has been met

    constructor (reader: BitReader, decoders: Decoders, fast: bool, ghost coders: Coders, ghost tables: Tables,
                 ghost owed: seq<Token>, ghost rest: seq<Bit>)
      ensures fresh(this) && this.reader == reader && this.decoders == decoders && this.fast == fast
      ensures this.coders == coders && this.tables == tables
      ensures this.owed == owed && this.rest == rest && zeros == 0
    {
      this.reader, this.decoders, this.fast := reader, decoders, fast;
      this.coders, this.tables, this.owed, this.rest, zeros := coders, tables, owed, rest, 0;
    }

    ghost predicate ReaderOk()
      reads reader
    {
      if fast then reader.FastOk() else reader.Valid()
    }

    /** After some bits come those of the tokens owed, and the rest; zeros are made up only behind a marker. */
    ghost predicate Comes(head: seq<Bit>)
      reads this`owed, this`rest, this`zeros, reader
    {
      && ReaderOk() && reader.taken <= |reader.data| && coders.Sized() && AllCovered(coders, owed)
      && reader.Ahead() == head + (TokensBits(coders, owed) + (rest + Zeros(zeros)))
      && (zeros > 0 ==> fast && reader.unreadMarker != 0)
    }

    /** Decodes the symbol of the next token, whose value's bits come next. */
    method NextSymbol(id: TableId, ghost t: Token, ghost more: seq<Token>) returns (symbol: nat)
      requires Comes([]) && owed == [t] + more && t.table == id && Shared(coders, decoders, tables, id)
      modifies this`owed, this`zeros, reader`getBuffer, reader`bitsLeft, reader`pos, reader`unreadMarker,
        reader`taken, reader`insufficient
      ensures Comes(BitsOf(t.extra, t.size)) && owed == more && symbol == t.symbol
      ensures TokenCovered(coders, t)
      ensures reader.insufficient == old(reader.insufficient)
      ensures fast ==> reader.pos <= old(reader.pos) + 4
    {
      hide AllCovered, BitsOf, TokensBits, Pow2, Expand, Codeword, Fits, BitReader.Valid, BitReader.FastOk,
        BitReader.Ahead, EncoderTable.For, DecoderTable.For, Covered, TokenCovered;
      ghost var e, tbl := coders.Get(id), tables.Get(id);
      ghost var bits, after := BitsOf(t.extra, t.size), rest + Zeros(zeros);
      HeadToken(t, more, after);
      ghost var i := SymbolIndex(e, tbl, t.symbol);
      ghost var following := bits + (TokensBits(coders, more) + after);
      owed := more;
      if fast {
        ghost var z;
        symbol, z := reader.FastDecode(decoders.Get(id), tbl, i, following);
        AddZeros(bits, TokensBits(coders, more), rest, zeros, z);
        zeros := zeros + z;
      } else {
        symbol := reader.Decode(decoders.Get(id), tbl, i, following);
      }
    }

    lemma HeadToken(t: Token, more: seq<Token>, after: seq<Bit>)
      requires coders.Sized() && AllCovered(coders, [t] + more)
      ensures TokenCovered(coders, t) && Covered(coders.Get(t.table), t.symbol) && AllCovered(coders, more)
      ensures [] + (TokensBits(coders, [t] + more) + after)
        == SymbolBits(coders.Get(t.table), t.symbol) + (BitsOf(t.extra, t.size) + (TokensBits(coders, more) + after))
    {
      hide SymbolBits, BitsOf, Covered;
      var all := [t] + more;
      assert all[0] == t && all[1..] == more;
      assert forall i :: 0 <= i < |more| ==> more[i] == all[i + 1];
    }

    lemma AddZeros(a: seq<Bit>, b: seq<Bit>, c: seq<Bit>, n: nat, z: nat)
      ensures a + (b + (c + Zeros(n))) + Zeros(z) == a + (b + (c + Zeros(n + z)))
    {
      assert Zeros(n) + Zeros(z) == Zeros(n + z);
    }

    /** Reads the n bits of x. */
    method NextBits(n: nat, ghost x: nat) returns (v: nat)
      requires n <= 16 && x < Pow2(n) && Comes(BitsOf(x, n))
      modifies this`zeros, reader`getBuffer, reader`bitsLeft, reader`pos, reader`unreadMarker, reader`taken,
        reader`insufficient
      ensures Comes([]) && v == x
      ensures reader.insufficient == old(reader.insufficient)
      ensures fast ==> reader.pos <= old(reader.pos) + 4
    {
      hide AllCovered, BitsOf, TokensBits, Pow2, BitReader.Valid, BitReader.FastOk, BitReader.Ahead;
      ghost var following := TokensBits(coders, owed) + (rest + Zeros(zeros));
      assert [] + following == following;
      if fast {
        ghost var z;
        v, z := reader.FastBits(n, x, following);
        AddZeros([], TokensBits(coders, owed), rest, zeros, z);
        zeros := zeros + z;
      } else {
        v := reader.TakeBits(n, x, following);
      }
    }

    /** The value of a known size that follows its symbol. */
    method NextValue(s: nat, ghost v: int) returns (value: int)
      requires v != 0 && s == BitLength(Abs(v)) <= 15 && Comes(BitsOf(Extra(v), s))
      modifies this`zeros, reader`getBuffer, reader`bitsLeft, reader`pos, reader`unreadMarker, reader`taken,
        reader`insufficient
      ensures Comes([]) && value == v
      ensures reader.insufficient == old(reader.insufficient)
      ensures fast ==> reader.pos <= old(reader.pos) + 4
    {
      hide Comes, BitsOf, Pow2, BitLength, Extra, Extend;
      ExtendExtra(v);
      var r := NextBits(s, Extra(v));
      value := Extend(r, s);
    }

    /** Decodes a DC difference and adds the prediction. */
    method DecodeDc(lastDc: int, tbl: nat, ghost dc: Coef, ghost more: seq<Token>) returns (s: int)
      requires Comes([]) && owed == [DcToken(tbl, dc - lastDc)] + more
      requires Shared(coders, decoders, tables, DcTable(tbl))
      modifies this`owed, this`zeros, reader`getBuffer, reader`bitsLeft, reader`pos, reader`unreadMarker,
        reader`taken, reader`insufficient
      ensures Comes([]) && owed == more && s == dc
      ensures reader.insufficient == old(reader.insufficient)
      ensures fast ==> reader.pos <= old(reader.pos) + 8
    {
      hide Comes, BitsOf, Pow2, BitLength, Extra, Shared;
      ghost var diff := dc - lastDc;
      s := NextSymbol(DcTable(tbl), DcToken(tbl, diff), more);
      SizeZero(diff);
      if s != 0 {
        s := NextValue(s, diff);
      }
      s := s + lastDc;
    }

    lemma SizeZero(v: int)
      ensures BitLength(Abs(v)) == 0 <==> v == 0
      ensures BitsOf(Extra(0), BitLength(Abs(0))) == []
    {
    }

    /** The coefficients before k are in place, the others still zero. */
    ghost predicate Placed(b: Block, z: Zz, k: nat) {
      forall i :: 0 <= i < 64 ==> At(b, i) == if i < k then z[i] else 0
    }

    /** Decodes the AC coefficients into a block whose DC value is in place and whose other values are zero. */
    method DecodeAc(b0: Block, tbl: nat, ghost original: Block, ghost more: seq<Token>) returns (b: Block)
      requires Comes([]) && owed == AcTokens(tbl, InZigzag(original), 1, 0) + more
      requires Shared(coders, decoders, tables, AcTable(tbl))
      requires Placed(b0, InZigzag(original), 1)
      modifies this`owed, this`zeros, reader`getBuffer, reader`bitsLeft, reader`pos, reader`unreadMarker,
        reader`taken, reader`insufficient
      ensures Comes([]) && owed == more && b == original
      ensures reader.insufficient == old(reader.insufficient)
      ensures fast ==> reader.pos <= old(reader.pos) + 504
    {
      hide Comes, BitsOf, Pow2, BitLength, Extra, Extend, Shared, AcTokens, Placed, At;
      ghost var z := InZigzag(original);
      b := b0;
      var k: nat := 1;
      while k < 64
        invariant 1 <= k <= 64 && Placed(b, z, k)
        invariant Comes([]) && owed == AcTokens(tbl, z, k, 0) + more
        invariant reader.insufficient == old(reader.insufficient)
        invariant fast ==> reader.pos <= old(reader.pos) + 8 * (k - 1)
      {
        ghost var j := NextRun(tbl, z, k, more);
        ghost var token := NextToken(tbl, z, k, j);
        var s := NextSymbol(AcTable(tbl), token, AcTokens(tbl, z, NextIndex(k, j), 0) + more);
        RunSymbol(tbl, z, k, j);
        var r := s / 16;
        s := s % 16;
        if s != 0 {
          k := k + r;
          s := NextValue(s, z[j]);
          CoefAt(original, k);
          Place(b, z, k - r, k);
          b := Put(b, k, ToCoef(s));
        } else {
          PlaceZeros(b, z, k, NextIndex(k, j));
          if r != 15 {
            k := 64;
            break;
          }
          k := k + 15;
        }
        k := k + 1;
      }
      AcTokensStep(tbl, z, 64, 0, more);
      WholeBlock(b, original);
    }

    lemma CoefAt(original: Block, k: nat)
      requires k < 64
      ensures ToCoef(InZigzag(original)[k]) == InZigzag(original)[k]
    {
      hide At;
      ToCoefExact(At(original, k), At(original, k), 0);
    }

    lemma Place(b: Block, z: Zz, k: nat, j: nat)
      requires k <= j < 64 && Placed(b, z, k) && -0x8000 <= z[j] < 0x8000
      requires forall i :: k <= i < j ==> z[i] == 0
      ensures Placed(Put(b, j, z[j]), z, j + 1)
    {
      hide At, Put;
      forall i | 0 <= i < 64
        ensures At(Put(b, j, z[j]), i) == if i < j + 1 then z[i] else 0
      {
        PutAt(b, j, z[j], i);
      }
    }

    lemma PlaceZeros(b: Block, z: Zz, k: nat, n: nat)
      requires k <= n <= 64 && Placed(b, z, k) && forall i :: k <= i < n ==> z[i] == 0
      ensures Placed(b, z, n)
    {
      hide At;
    }

    lemma WholeBlock(b: Block, original: Block)
      requires Placed(b, InZigzag(original), 64)
      ensures b == original
    {
      hide At;
      SameBlock(b, original);
    }

    /** Decodes the blocks of one MCU into zeroed areas, and moves the predictions on. */
    method DecodeBlocks(scan: Scan, last0: seq<int>, ghost mcu: seq<Block>, ghost more: seq<Token>)
        returns (out: seq<Block>, last: seq<int>)
      requires scan.Ok() && |last0| == |scan.comps| && |mcu| == |scan.membership|
      requires Comes([]) && owed == McuTokens(scan, last0, mcu, 0) + more
      requires forall i :: 0 <= i < |scan.comps| ==>
        && Shared(coders, decoders, tables, DcTable(scan.comps[i].dcTbl))
        && Shared(coders, decoders, tables, AcTable(scan.comps[i].acTbl))
      modifies this`owed, this`zeros, reader`getBuffer, reader`bitsLeft, reader`pos, reader`unreadMarker,
        reader`taken, reader`insufficient
      ensures Comes([]) && owed == more && out == mcu && last == McuLast(scan, last0, mcu, 0)
      ensures reader.insufficient == old(reader.insufficient)
      ensures fast ==> reader.pos <= old(reader.pos) + FAST_BYTES * |scan.membership|
    {
      hide Comes, Shared, McuTokens, McuLast, AcTokens, DcToken;
      out, last := [], last0;
      for blkn := 0 to |scan.membership|
        invariant |last| == |scan.comps| && out == mcu[..blkn]
        invariant Comes([]) && owed == McuTokens(scan, last, mcu, blkn) + more
        invariant McuLast(scan, last, mcu, blkn) == McuLast(scan, last0, mcu, 0)
        invariant reader.insufficient == old(reader.insufficient)
        invariant fast ==> reader.pos <= old(reader.pos) + FAST_BYTES * blkn
      {
        var ci := scan.membership[blkn];
        var c := scan.comps[ci];
        ghost var original := mcu[blkn];
        McuTokensStep(scan, last, mcu, blkn, more);
        ghost var left := McuTokens(scan, last[ci := original[0]], mcu, blkn + 1) + more;
        BlockParts(c, last[ci], original, left);
        var s := DecodeDc(last[ci], c.dcTbl, original[0], AcTokens(c.acTbl, InZigzag(original), 1, 0) + left);
        last := last[ci := s];
        DcInPlace(original);
        var b := DecodeAc(ZERO_BLOCK[0 := ToCoef(s)], c.acTbl, original, left);
        out := out + [b];
      }
      McuTokensStep(scan, last, mcu, |mcu|, more);
    }

    lemma BlockParts(c: Component, last: int, b: Block, more: seq<Token>)
      ensures BlockTokens(c, last, b) + more
           == [DcToken(c.dcTbl, b[0] - last)] + (AcTokens(c.acTbl, InZigzag(b), 1, 0) + more)
    {
      hide DcToken, AcTokens;
    }

    lemma DcInPlace(original: Block)
      ensures ToCoef(original[0]) == original[0]
      ensures Placed(ZERO_BLOCK[0 := original[0]], InZigzag(original), 1)
    {
      ToCoefExact(original[0], original[0], 0);
      assert NaturalOrder(0) == 0 && ZigzagIndex(0) == 0;
      hide NaturalOrder, ZigzagIndex;
      var b := ZERO_BLOCK[0 := original[0]];
      forall i | 0 <= i < 64
        ensures At(b, i) == if i < 1 then At(original, 0) else 0
      {
        NaturalOrderIsZigzag(i);
      }
    }
  }
}
