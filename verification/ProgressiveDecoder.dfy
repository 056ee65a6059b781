/** Progressive Huffman decoding of AC bands: decode_mcu_AC_first and decode_mcu_AC_refine of jdphuff.c. */
module ProgressiveDecoder {
  import opened Powers
  import opened BitString
  import opened Coefficients
  import opened SuccessiveApproximation
  import opened HuffmanCode
  import opened HuffmanTables
  import opened HuffmanTokens
  import opened HuffmanReader
  import opened HuffmanDecoder
  import opened EobRuns
  import opened RunsAhead

  class BandDecoder {
    const reader: BitReader
    const decoder: DecoderTable
    const band: Band
    const al: nat
    var eobrun: nat                 // bands left in the current run

    ghost const coder: EncoderTable
    ghost const table: Table
    ghost var owed: seq<Item>       // the items still to come
    ghost var rest: seq<Bit>        // the bits after them

    constructor (reader: BitReader, decoder: DecoderTable, band: Band, al: nat, ghost coder: EncoderTable,
                 ghost table: Table, ghost owed: seq<Item>, ghost rest: seq<Bit>)
      ensures fresh(this) && this.reader == reader && this.decoder == decoder && this.band == band && this.al == al
      ensures this.coder == coder && this.table == table && this.owed == owed && this.rest == rest && eobrun == 0
    {
      this.reader, this.decoder, this.band, this.al, eobrun := reader, decoder, band, al, 0;
      this.coder, this.table, this.owed, this.rest := coder, table, owed, rest;
    }

    /** The bits ahead are those of the items owed. */
    ghost predicate Comes()
      reads this`owed, this`rest, reader
    {
      && coder.For(table) && decoder.For(table) && Fits(table.Sizes())
      && reader.Valid() && reader.taken <= |reader.data|
      && ItemsCovered(coder, owed) && reader.Ahead() == ItemsBits(coder, owed) + rest
    }

    lemma HeadItem(t: Item, more: seq<Item>)
      requires ItemsCovered(coder, [t] + more)
      ensures ItemCovered(coder, t) && ItemsCovered(coder, more)
      ensures ItemsBits(coder, [t] + more) + rest == ItemBits(coder, t) + (ItemsBits(coder, more) + rest)
    {
      hide ItemBits, ItemCovered;
      var all := [t] + more;
      assert all[0] == t && all[1..] == more;
      assert forall i :: 0 <= i < |more| ==> more[i] == all[i + 1];
    }

    method NextSymbol(ghost s: nat, ghost more: seq<Item>) returns (symbol: nat)
      requires Comes() && owed == [Symbol(s)] + more
      modifies this`owed, reader`getBuffer, reader`bitsLeft, reader`pos, reader`unreadMarker, reader`taken,
        reader`insufficient
      ensures Comes() && owed == more && symbol == s && reader.insufficient == old(reader.insufficient)
    {
      hide BitReader.Valid, BitReader.Ahead, ItemsBits, ItemsCovered, EncoderTable.For, DecoderTable.For, Fits,
        Codeword, Expand, Covered;
      HeadItem(Symbol(s), more);
      ghost var i := SymbolIndex(coder, table, s);
      symbol := reader.Decode(decoder, table, i, ItemsBits(coder, more) + rest);
      owed := more;
    }

    method NextBits(n: nat, ghost v: nat, ghost more: seq<Item>) returns (bits: nat)
      requires Comes() && owed == [Bits(v, n)] + more
      modifies this`owed, reader`getBuffer, reader`bitsLeft, reader`pos, reader`unreadMarker, reader`taken,
        reader`insufficient
      ensures Comes() && owed == more && bits == v && reader.insufficient == old(reader.insufficient)
    {
      hide BitReader.Valid, BitReader.Ahead, ItemsBits, ItemsCovered, EncoderTable.For, DecoderTable.For, Fits,
        BitsOf, Expand, Pow2;
      HeadItem(Bits(v, n), more);
      bits := reader.TakeBits(n, v, ItemsBits(coder, more) + rest);
      owed := more;
    }

    /** EOBn: the length of a run from its symbol and its extra bits. */
    method NextRunLength(r0: nat, ghost run: Run, ghost more: seq<Item>) returns (length: nat)
      requires Comes() && 1 <= run.count && r0 == BitLength(run.count) - 1
      requires owed == (if r0 > 0 then [Bits(run.count % Pow2(r0), r0)] else []) + (RawBits(run.bits) + more)
      modifies this`owed, reader`getBuffer, reader`bitsLeft, reader`pos, reader`unreadMarker, reader`taken,
        reader`insufficient
      ensures Comes() && owed == RawBits(run.bits) + more && length == run.count
      ensures reader.insufficient == old(reader.insufficient)
    {
      hide Comes, Pow2, BitLength, RawBits;
      LengthParts(run.count);
      length := Pow2(r0);
      if r0 > 0 {
        var r := NextBits(r0, run.count % Pow2(r0), RawBits(run.bits) + more);
        length := length + r;
      }
    }

    lemma LengthParts(count: nat)
      requires count >= 1
      ensures BitLength(count) >= 1
      ensures var n := BitLength(count) - 1;
        if n == 0 then count == Pow2(0) else count == Pow2(n) + count % Pow2(n)
    {
      hide BitLength;
      BitLengthBounds(count);
      var n := BitLength(count) - 1;
      assert Pow2(n + 1) == 2 * Pow2(n) && Pow2(0) == 1 && Pow2(1) == 2;
      hide Pow2;
      DivModUnique(count, 1, count - Pow2(n), Pow2(n));
    }

    /** Between blocks: in a run of bands, or before the items of the next one. */
    ghost predicate Between(zs: seq<Zz>)
      reads this`owed, this`rest, this`eobrun, reader
    {
      && band.Ok() && Comes() && eobrun <= |zs| && AllQuiet(band, zs[..eobrun]) && owed == Waiting(band, zs, eobrun)
    }

    /** Decodes a band sent for the first time into a block that has zeros there. */
    method DecodeMcuAcFirst(b0: Block, ghost zs: seq<Zz>) returns (b: Block)
      requires Between(zs) && zs != [] && !band.refine
      requires band.InRange(zs[0]) && FitsCoef(zs[0], Pow2(al), band.ss, band.se)
      requires forall j :: band.ss <= j <= band.se ==> At(b0, j) == 0
      modifies this`owed, this`eobrun, reader`getBuffer, reader`bitsLeft, reader`pos, reader`unreadMarker,
        reader`taken, reader`insufficient
      ensures Between(zs[1..]) && BandDone(b0, b, zs[0], Pow2(al), band.ss, band.se + 1)
      ensures reader.insufficient == old(reader.insufficient)
    {
      hide Comes, Pow2, At, BandDone, FitsCoef, Waiting, AllQuiet, Band.ScanItems, AfterBand;
      ghost var z, p := zs[0], Pow2(al);
      b := b0;
      BandStart(b0, z, p, band.ss);
      if eobrun > 0 {
        WaitingNext(band, zs, eobrun);
        NothingNew(z);
        BandRest(b0, b, z, p, band.ss, band.ss, band.se);
        eobrun := eobrun - 1;
      } else {
        WaitingNone(band, zs);
        ghost var m := BlockAhead(band, zs);
        b := DecodeFirst(b0, z, zs[1..], m);
      }
    }

    lemma NothingNew(z: Zz)
      requires band.Ok() && !band.refine && band.Quiet(z)
      ensures AllZero(z, band.ss, band.se) && RawBits(band.Corrections(z)) == []
      ensures forall items: seq<Item> :: [] + items == items
    {
    }

    /** Reads the value of coefficient k, of s bits, and stores it shifted. */
    method PlaceValue(ghost b0: Block, b1: Block, ghost z: Zz, k: nat, s: nat, ghost more: seq<Item>) returns (b: Block)
      requires band.Ok() && band.ss <= k <= band.se && Comes() && z[k] != 0 && s == BitLength(Abs(z[k]))
      requires owed == [Bits(Extra(z[k]), s)] + more && -0x8000 <= z[k] * Pow2(al) < 0x8000
      requires BandDone(b0, b1, z, Pow2(al), band.ss, k)
      modifies this`owed, reader`getBuffer, reader`bitsLeft, reader`pos, reader`unreadMarker, reader`taken,
        reader`insufficient
      ensures Comes() && owed == more && BandDone(b0, b, z, Pow2(al), band.ss, k + 1)
      ensures reader.insufficient == old(reader.insufficient)
    {
      hide Comes, Pow2, At, Put, BandDone, BitLength, Extra, Extend, ToCoef;
      ExtendExtra(z[k]);
      var bits := NextBits(s, Extra(z[k]), more);
      var value := Extend(bits, s);
      ToCoefExact(z[k] * Pow2(al), value * Pow2(al), 0);
      BandPut(b0, b1, z, Pow2(al), band.ss, k, ToCoef(value * Pow2(al)));
      b := Put(b1, k, ToCoef(value * Pow2(al)));
    }

    /** The loop over the coefficients of a band that is not in a run. */
    method DecodeFirst(b0: Block, ghost z: Zz, ghost others: seq<Zz>, ghost m: nat) returns (b: Block)
      requires band.Ok() && !band.refine && Comes() && eobrun == 0 && m <= |others| && 1 + m <= MAX_RUN
      requires owed == FirstItems(z, band.ss, band.se, 0) + AfterBand(band, band.Tail(z), others, m)
      requires band.Tail(z) == NO_RUN ==> m == 0
      requires band.InRange(z) && FitsCoef(z, Pow2(al), band.ss, band.se)
      requires forall j :: band.ss <= j <= band.se ==> At(b0, j) == 0
      modifies this`owed, this`eobrun, reader`getBuffer, reader`bitsLeft, reader`pos, reader`unreadMarker,
        reader`taken, reader`insufficient
      ensures Comes() && owed == Waiting(band, others, m) && eobrun == m
      ensures BandDone(b0, b, z, Pow2(al), band.ss, band.se + 1)
      ensures reader.insufficient == old(reader.insufficient)
    {
      hide Comes, Pow2, At, BandDone, FitsCoef, Waiting, FirstItems, AfterBand, BitLength, Extra, Extend, FirstSymbol,
        RawBits, Band.InRange;
      ghost var p, after := Pow2(al), AfterBand(band, band.Tail(z), others, m);
      var se := band.se;
      b := b0;
      BandStart(b0, z, p, band.ss);
      var k: nat := band.ss;
      while k <= se
        invariant band.ss <= k <= se + 1 && BandDone(b0, b, z, p, band.ss, k)
        invariant Comes() && owed == FirstItems(z, k, se, 0) + after && eobrun == 0
        invariant k > se ==> z[se] != 0
        invariant reader.insufficient == old(reader.insufficient)
      {
        ghost var j := FirstAhead(z, k, se, after);
        FirstSizes(z, p, k, j, m);
        TailRun(z, others, m);
        ghost var symbol := FirstSymbol(z, k, j, m);
        FirstParts(z, k, j, m);
        var s := NextSymbol(symbol, owed[1..]);
        var r := s / 16;
        s := s % 16;
        if s != 0 {
          BandZeros(b0, b, z, p, band.ss, k, k + r);
          k := k + r;
          b := PlaceValue(b0, b, z, k, s, FirstItems(z, k + 1, se, 0) + after);
        } else if r == 15 {
          BandZeros(b0, b, z, p, band.ss, k, k + 16);
          k := k + 15;
        } else {
          eobrun := NextRunLength(r, Run(1 + m, []), Waiting(band, others, m));
          eobrun := eobrun - 1;
          BandZeros(b0, b, z, p, band.ss, k, se + 1);
          return;
        }
        k := k + 1;
      }
      FirstEnd(z, se, 0);
      LengthParts(1 + m);
      TailRun(z, others, m);
    }

    /** The symbol that a decoder meets at k when j is the next coefficient that is not zero. */
    ghost function FirstSymbol(z: Zz, k: nat, j: nat, m: nat): nat
      requires k <= j <= 64 && BitLength(1 + m) >= 1
    {
      if j > band.se || j == 64 then 16 * (BitLength(1 + m) - 1)
      else if j - k > 15 then 0xF0
      else 16 * (j - k) + BitLength(Abs(z[j]))
    }

    lemma FirstParts(z: Zz, k: nat, j: nat, m: nat)
      requires k <= j <= 64 && 1 <= BitLength(1 + m) <= 15
      requires j < 64 && j <= band.se ==> 1 <= BitLength(Abs(z[j])) <= 10
      ensures var symbol := FirstSymbol(z, k, j, m);
        if j > band.se || j == 64 then symbol % 16 == 0 && symbol / 16 == BitLength(1 + m) - 1
        else if j - k > 15 then symbol == 0xF0
        else symbol % 16 == BitLength(Abs(z[j])) && symbol / 16 == j - k
      ensures FirstSymbol(z, k, j, m)
        == if j > band.se || j == 64 then 16 * (BitLength(1 + m) - 1)
           else if j - k > 15 then 0xF0
           else 16 * (j - k) + BitLength(Abs(z[j]))
    {
      hide BitLength;
    }

    lemma FirstSizes(z: Zz, p: nat, k: nat, j: nat, m: nat)
      requires band.Ok() && band.ss <= k <= band.se && k <= j <= band.se + 1 && p >= 1 && 1 + m <= MAX_RUN
      requires band.InRange(z) && FitsCoef(z, p, band.ss, band.se) && (j <= band.se ==> z[j] != 0)
      ensures 1 <= BitLength(1 + m) <= 15
      ensures j <= band.se ==> -0x8000 <= z[j] * p < 0x8000 && 1 <= BitLength(Abs(z[j])) <= 10
    {
      hide Pow2, FitsCoef, BitLength;
      BitLengthBounds(1 + m);
      BitLengthAtMost(1 + m, 15);
      Pow2Values();
      if j <= band.se {
        BitLengthBounds(Abs(z[j]));
        MagnitudeFits(z, p, band.ss, band.se, j);
      }
    }

    /** Trailing zeros begin a run; a band that ends with another coefficient does not. */
    lemma TailRun(z: Zz, others: seq<Zz>, m: nat)
      requires band.Ok() && !band.refine && m <= |others| && BitLength(1 + m) >= 1
      ensures z[band.se] != 0 ==> AfterBand(band, band.Tail(z), others, m) == Waiting(band, others, 0)
      ensures z[band.se] == 0 ==>
        var n := BitLength(1 + m) - 1;
        AfterBand(band, band.Tail(z), others, m)
        == [Symbol(16 * n)]
           + ((if n > 0 then [Bits((1 + m) % Pow2(n), n)] else []) + (RawBits([]) + Waiting(band, others, m)))
      ensures RawBits([]) == [] && forall items: seq<Item> :: [] + items == items
      ensures z[band.se] != 0 <==> band.Tail(z) == NO_RUN
    {
      hide Waiting, BitLength, Pow2;
    }

    // ---- refinement ----

    /** What the walk over a band being refined needs to know of the block. */
    ghost predicate Refining(b0: Block, b: Block, z: Zz, k: nat) {
      && band.Ok() && band.ss <= k <= band.se + 1
      && HoldsStageBefore(b0, z, Pow2(al), band.ss, band.se) && FitsCoef(z, Pow2(al), band.ss, band.se)
      && BandDone(b0, b, z, Pow2(al), band.ss, k)
    }

    /** What the block shows at k before its coefficient is refined. */
    lemma RefiningAt(b0: Block, b: Block, z: Zz, k: nat)
      requires Refining(b0, b, z, k) && k <= band.se
      ensures At(b, k) == 0 <==> Abs(z[k]) < 2
      ensures Abs(z[k]) >= 2 ==> (At(b, k) < 0 <==> z[k] < 0)
      ensures At(b, k) + (if Abs(z[k]) % 2 == 0 then 0 else if z[k] < 0 then 0 - Pow2(al) else Pow2(al))
        == z[k] * Pow2(al)
      ensures -0x8000 <= z[k] * Pow2(al) < 0x8000 && At(b, k) / Pow2(al) % 2 == 0
    {
      hide At, Pow2, Half, HoldsStageBefore, FitsCoef, BandDone;
      EvenMultiple(Half(z[k]), Pow2(al));
      HalfFacts(z[k], Pow2(al));
      BandAt(b0, z, Pow2(al), band.ss, band.se, k);
      BandLookup(b0, b, z, Pow2(al), band.ss, k);
    }

    lemma EvenMultiple(h: int, p: nat)
      requires p >= 1
      ensures h * (2 * p) / p % 2 == 0
    {
      Regroup(h, p);
      DivModUnique(h * (2 * p), 2 * h, 0, p);
    }

    /** Stores a refined coefficient, or leaves one that stays as it is. */
    lemma RefinedTo(b0: Block, b: Block, z: Zz, k: nat, v: Coef)
      requires Refining(b0, b, z, k) && k <= band.se && v == z[k] * Pow2(al)
      ensures Refining(b0, Put(b, k, v), z, k + 1)
      ensures At(b, k) == v ==> Refining(b0, b, z, k + 1)
    {
      hide At, Put, Pow2, HoldsStageBefore, FitsCoef;
      BandPut(b0, b, z, Pow2(al), band.ss, k, v);
    }

    /** Reads the correction bit of a coefficient that was nonzero already. */
    method CorrectOne(ghost b0: Block, b1: Block, ghost z: Zz, k: nat, ghost more: seq<Item>) returns (b: Block)
      requires Refining(b0, b1, z, k) && k <= band.se < 64 && Abs(z[k]) > 1 && Comes()
      requires owed == RawBits([Abs(z[k]) % 2]) + more
      modifies this`owed, reader`getBuffer, reader`bitsLeft, reader`pos, reader`unreadMarker, reader`taken,
        reader`insufficient
      ensures Comes() && owed == more && Refining(b0, b, z, k + 1)
      ensures reader.insufficient == old(reader.insufficient)
    {
      hide Comes, Pow2, At, Refining;
      RefiningAt(b0, b1, z, k);
      assert RawBits([Abs(z[k]) % 2]) == [Bits(Abs(z[k]) % 2, 1)];
      var bit := NextBits(1, Abs(z[k]) % 2, more);
      b := b1;
      var v: int := At(b, k);
      if bit != 0 && v / Pow2(al) % 2 == 0 {
        v := if v >= 0 then v + Pow2(al) else v - Pow2(al);
        b := Put(b, k, v);
      }
      RefinedTo(b0, b1, z, k, v);
    }

    /** Passes over coefficients, correcting those that were nonzero, up to the zero behind r other zeros. */
    method Advance(ghost b0: Block, b1: Block, ghost z: Zz, k0: nat, r0: int, ghost j: nat, ghost more: seq<Item>)
        returns (b: Block, k: nat)
      requires Refining(b0, b1, z, k0) && Comes() && k0 <= j <= band.se < 64 && NoOnes(z, k0, j) && Abs(z[j]) < 2
      requires r0 == ZeroCount(z, k0, j) && owed == RawBits(Correct(z, k0, j)) + more
      modifies this`owed, reader`getBuffer, reader`bitsLeft, reader`pos, reader`unreadMarker, reader`taken,
        reader`insufficient
      ensures Comes() && owed == more && k == j && Refining(b0, b, z, j)
      ensures reader.insufficient == old(reader.insufficient)
    {
      hide Comes, Pow2, At, Refining, Correct, RawBits, ZeroCount;
      b, k := b1, k0;
      var r := r0;
      while k <= band.se
        invariant k0 <= k <= j && Refining(b0, b, z, k) && Comes()
        invariant r == ZeroCount(z, k, j) && owed == RawBits(Correct(z, k, j)) + more
        invariant reader.insufficient == old(reader.insufficient)
        decreases j - k
      {
        RefiningAt(b0, b, z, k);
        CorrectFront(z, k, j, more);
        if k < j {
          ZeroCountFront(z, k, j);
        } else {
          NoZeros(z, j);
        }
        if At(b, k) != 0 {
          b := CorrectOne(b0, b, z, k, RawBits(Correct(z, k + 1, j)) + more);
        } else {
          r := r - 1;
          if r < 0 {
            return;
          }
          RefinedTo(b0, b, z, k, 0);
        }
        k := k + 1;
      }
    }

    lemma NoZeros(z: Zz, j: nat)
      requires j <= 64
      ensures ZeroCount(z, j, j) == 0
    {
    }

    /** After the last new coefficient: correction bits for the rest of the band. */
    method FinishBand(ghost b0: Block, b1: Block, ghost z: Zz, k0: nat, ghost more: seq<Item>) returns (b: Block)
      requires Refining(b0, b1, z, k0) && Comes() && k0 <= band.se + 1 <= 64 && NoOnes(z, k0, band.se + 1)
      requires owed == RawBits(Correct(z, k0, band.se + 1)) + more
      modifies this`owed, reader`getBuffer, reader`bitsLeft, reader`pos, reader`unreadMarker, reader`taken,
        reader`insufficient
      ensures Comes() && owed == more && Refining(b0, b, z, band.se + 1)
      ensures reader.insufficient == old(reader.insufficient)
    {
      hide Comes, Pow2, At, Refining, Correct, RawBits;
      b := b1;
      var k := k0;
      while k <= band.se
        invariant k0 <= k <= band.se + 1 && Refining(b0, b, z, k) && Comes()
        invariant owed == RawBits(Correct(z, k, band.se + 1)) + more
        invariant reader.insufficient == old(reader.insufficient)
      {
        RefiningAt(b0, b, z, k);
        CorrectFront(z, k, band.se + 1, more);
        if At(b, k) != 0 {
          b := CorrectOne(b0, b, z, k, RawBits(Correct(z, k + 1, band.se + 1)) + more);
        } else {
          RefinedTo(b0, b, z, k, 0);
        }
        k := k + 1;
      }
      CorrectFront(z, k, k, more);
    }

    /** The end of the symbols of a band: its own, or the start of a run of 1 + m bands. */
    ghost predicate BandEnds(z: Zz, k: nat, others: seq<Zz>, m: nat)
      requires band.Ok() && m <= |others|
      reads this`owed, this`eobrun
    {
      && k <= band.se + 1 && NoOnes(z, k, band.se + 1)
      && if eobrun > 0 then eobrun == 1 + m && owed == RawBits(Correct(z, k, band.se + 1)) + Waiting(band, others, m)
         else k == band.se + 1 && m == 0 && owed == Waiting(band, others, 0)
    }

    /** The symbols of a band that is not in a run. */
    method RefineSymbols(b0: Block, ghost z: Zz, ghost others: seq<Zz>, ghost m: nat) returns (b: Block, k: nat)
      requires band.Ok() && band.refine && Comes() && eobrun == 0 && m <= |others| && 1 + m <= MAX_RUN
      requires Refining(b0, b0, z, band.ss)
      requires owed == band.Active(z) + AfterBand(band, band.Tail(z), others, m)
      requires band.Tail(z) == NO_RUN ==> m == 0
      modifies this`owed, this`eobrun, reader`getBuffer, reader`bitsLeft, reader`pos, reader`unreadMarker,
        reader`taken, reader`insufficient
      ensures Comes() && Refining(b0, b, z, k) && BandEnds(z, k, others, m)
      ensures reader.insufficient == old(reader.insufficient)
    {
      hide Comes, Pow2, At, Refining, Correct, RawBits, Waiting, AfterBand, RefineItems, RefineTail, ZeroCount,
        LastOne, BitLength, EventSymbol, SignItem;
      var se := band.se;
      ghost var eob, tail := LastOne(z, band.ss, se), band.Tail(z);
      ghost var after := AfterBand(band, tail, others, m);
      b, k := b0, band.ss;
      while k <= se
        invariant band.ss <= k <= se + 1 && Refining(b0, b, z, k) && Comes() && eobrun == 0
        invariant owed == RefineItems(z, k, se, eob, 0, []) + after && RefineTail(z, k, se, eob, 0, []) == tail
        invariant reader.insufficient == old(reader.insufficient)
      {
        ghost var j, event := RefineAhead(z, k, band.ss, se, after);
        TailSymbol(tail, others, m);
        ghost var symbol := EventSymbol(z, k, j, event, m);
        EventParts(z, k, j, event, m);
        var s := NextSymbol(symbol, owed[1..]);
        var r: int := s / 16;
        s := s % 16;
        if s == 0 && r != 15 {
          eobrun := NextRunLength(r, Run(1 + m, tail.bits), Waiting(band, others, m));
          return;
        }
        b, k := RefineEvent(b0, b, z, k, r, s, j, event, RefineItems(z, j + 1, se, eob, 0, []) + after);
        k := k + 1;
      }
      RefineEnd(z, se, eob, 0, []);
      NothingAfter(tail, others, m);
    }

    ghost function EventSymbol(z: Zz, k: nat, j: nat, event: Event, m: nat): nat
      requires j <= 64 && BitLength(1 + m) >= 1
    {
      match event
      case New => 16 * ZeroCount(z, k, j) + 1
      case SixteenZeros => 0xF0
      case End => 16 * (BitLength(1 + m) - 1)
    }

    lemma EventParts(z: Zz, k: nat, j: nat, event: Event, m: nat)
      requires k <= band.se < 64 && EventAt(z, k, j, band.se, event) && 1 <= BitLength(1 + m) <= 15
      ensures var symbol := EventSymbol(z, k, j, event, m);
        match event
        case New => symbol == 16 * ZeroCount(z, k, j) + 1 && symbol / 16 == ZeroCount(z, k, j) && symbol % 16 == 1
        case SixteenZeros => symbol == 0xF0 && ZeroCount(z, k, j) == 15
        case End =>
          var n := BitLength(1 + m) - 1;
          symbol == 16 * n && symbol / 16 == n && symbol % 16 == 0
    {
      hide BitLength, ZeroCount;
    }

    lemma TailSymbol(tail: Run, others: seq<Zz>, m: nat)
      requires band.Ok() && m <= |others| && 1 + m <= MAX_RUN
      ensures 1 <= BitLength(1 + m) <= 15
      ensures tail != NO_RUN ==>
        var n := BitLength(1 + m) - 1;
        AfterBand(band, tail, others, m)
        == [Symbol(16 * n)]
           + ((if n > 0 then [Bits((1 + m) % Pow2(n), n)] else []) + (RawBits(tail.bits) + Waiting(band, others, m)))
    {
      hide Waiting, Pow2, BitLength, RawBits;
      BitLengthBounds(1 + m);
      BitLengthAtMost(1 + m, 15);
      Pow2Values();
    }

    lemma NothingAfter(tail: Run, others: seq<Zz>, m: nat)
      requires band.Ok() && m <= |others|
      ensures tail == NO_RUN ==> [] + AfterBand(band, tail, others, m) == Waiting(band, others, 0)
    {
      hide Waiting;
    }

    /** A new coefficient, or sixteen zeros, with the corrections of the coefficients passed. */
    method RefineEvent(ghost b0: Block, b1: Block, ghost z: Zz, k0: nat, r: int, s0: nat, ghost j: nat,
                       ghost event: Event, ghost more: seq<Item>)
        returns (b: Block, k: nat)
      requires Refining(b0, b1, z, k0) && Comes() && k0 <= band.se < 64 && EventAt(z, k0, j, band.se, event)
      requires r == ZeroCount(z, k0, j) && event != End && (s0 == if event == New then 1 else 0)
      requires owed == (if event == New then [SignItem(z[j])] else []) + (RawBits(Correct(z, k0, j)) + more)
      modifies this`owed, reader`getBuffer, reader`bitsLeft, reader`pos, reader`unreadMarker, reader`taken,
        reader`insufficient
      ensures Comes() && owed == more && k == j && Refining(b0, b, z, j + 1)
      ensures reader.insufficient == old(reader.insufficient)
    {
      hide Comes, Pow2, At, Put, Refining, Correct, RawBits, ZeroCount;
      var s: int := s0;
      if s != 0 {
        var sign := NextBits(1, if z[j] < 0 then 0 else 1, RawBits(Correct(z, k0, j)) + more);
        s := if sign != 0 then Pow2(al) else 0 - Pow2(al);
      }
      b, k := Advance(b0, b1, z, k0, r, j, more);
      RefiningAt(b0, b, z, k);
      OneTimes(z[j], Pow2(al));
      if s != 0 {
        RefinedTo(b0, b, z, k, s);
        b := Put(b, k, s);
      } else {
        RefinedTo(b0, b, z, k, 0);
      }
    }

    lemma OneTimes(v: int, p: nat)
      requires Abs(v) < 2
      ensures v * p == if v == 0 then 0 else if v < 0 then 0 - p else p
    {
    }

    /** Decodes the refinement of a band of a block that holds what the stages before left. */
    method DecodeMcuAcRefine(b0: Block, ghost zs: seq<Zz>) returns (b: Block)
      requires Between(zs) && zs != [] && band.refine
      requires HoldsStageBefore(b0, zs[0], Pow2(al), band.ss, band.se) && FitsCoef(zs[0], Pow2(al), band.ss, band.se)
      modifies this`owed, this`eobrun, reader`getBuffer, reader`bitsLeft, reader`pos, reader`unreadMarker,
        reader`taken, reader`insufficient
      ensures Between(zs[1..]) && BandDone(b0, b, zs[0], Pow2(al), band.ss, band.se + 1)
      ensures reader.insufficient == old(reader.insufficient)
    {
      hide Comes, Pow2, At, BandDone, HoldsStageBefore, FitsCoef, Waiting, AllQuiet, Band.ScanItems, AfterBand,
        Correct, RawBits;
      ghost var z, others := zs[0], zs[1..];
      BandStart(b0, z, Pow2(al), band.ss);
      b := b0;
      var k: nat := band.ss;
      ghost var m: nat := 0;
      if eobrun == 0 {
        WaitingNone(band, zs);
        m := BlockAhead(band, zs);
        b, k := RefineSymbols(b0, z, others, m);
      } else {
        WaitingNext(band, zs, eobrun);
        m := eobrun - 1;
      }
      if eobrun > 0 {
        b := FinishBand(b0, b, z, k, Waiting(band, others, m));
        eobrun := eobrun - 1;
      }
    }
  }
}
