/** Progressive Huffman encoding of AC bands: encode_mcu_AC_first and encode_mcu_AC_refine of jcphuff.c. */
module ProgressiveEncoder {
  import opened Powers
  import opened ByteStream
  import opened BitString
  import opened Coefficients
  import opened SuccessiveApproximation
  import opened HuffmanForest
  import opened HuffmanTables
  import opened HuffmanTokens
  import opened EobRuns
  import opened BandMask
  import opened ProgressiveWriter

  /** How often a symbol is among the items. */
  function Occurrences(ts: seq<Item>, s: nat): nat {
    if ts == [] then 0
    else Occurrences(ts[..|ts| - 1], s) + if ts[|ts| - 1] == Symbol(s) then 1 else 0
  }

  lemma OccurrencesSnoc(ts: seq<Item>, t: Item, s: nat)
    ensures Occurrences(ts + [t], s) == Occurrences(ts, s) + if t == Symbol(s) then 1 else 0
  {
    assert (ts + [t])[..|ts|] == ts;
  }

  class BandEncoder {
    const gather: bool              // statistics instead of output
    const writer: JustifiedWriter
    const table: EncoderTable
    const band: Band
    const al: nat
    const bitBuffer: array<Bit>     // buffer for correction bits
    const counts: array<nat>        // symbols, in a statistics pass
    var eobrun: nat                 // run length of end-of-bands
    var be: nat                     // number of buffered correction bits before this block

    ghost var done: seq<Item>       // emitted, or counted
    ghost var owed: seq<Item>       // still to be emitted for this block

    constructor (band: Band, al: nat, gather: bool, table: EncoderTable)
      ensures fresh(this) && fresh(writer) && fresh(bitBuffer) && fresh(counts) && Sent() && done == [] && owed == []
      ensures this.band == band && this.al == al && this.gather == gather && this.table == table
      ensures eobrun == 0 && be == 0 && bitBuffer.Length == MAX_CORR_BITS && writer.before == []
    {
      this.band, this.al, this.gather, this.table := band, al, gather, table;
      writer := new JustifiedWriter();
      bitBuffer := new Bit[MAX_CORR_BITS](_ => 0);
      counts := new nat[SYMBOLS](_ => 0);
      eobrun, be, done, owed := 0, 0, [], [];
      new;
      hide JustifiedWriter.Valid;
      Nothing();
    }

    lemma Nothing()
      ensures ItemsCovered(table, []) && ItemsBits(table, []) == [] && forall s :: Occurrences([], s) == 0
    {
    }

    /** Everything emitted is in the output, or its symbols are in the counts. */
    ghost predicate Sent()
      reads this`done, writer, counts
    {
      && counts.Length == SYMBOLS && writer.Valid()
      && if gather then forall s :: 0 <= s < SYMBOLS ==> counts[s] == Occurrences(done, s)
         else ItemsCovered(table, done) && writer.bits == ItemsBits(table, done)
    }

    /** Everything owed can be emitted. */
    ghost predicate CanSend(ts: seq<Item>) {
      if gather then forall i :: 0 <= i < |ts| && ts[i].Symbol? ==> ts[i].s < SYMBOLS else ItemsCovered(table, ts)
    }

    ghost predicate Ready()
      reads this`done, this`owed, writer, counts
    {
      Sent() && CanSend(owed) && bitBuffer.Length == MAX_CORR_BITS
    }

    lemma TakeHead(t: Item, more: seq<Item>)
      requires CanSend([t] + more)
      ensures CanSend(more) && CanSend([t])
    {
      if gather {
        assert forall i :: 0 <= i < |more| ==> ([t] + more)[i + 1] == more[i];
        assert ([t] + more)[0] == t;
      } else {
        ItemsParts(table, [t], more);
      }
    }

    lemma SendOne(t: Item)
      requires !gather && ItemsCovered(table, done) && ItemsCovered(table, [t])
      ensures ItemsCovered(table, done + [t]) && ItemCovered(table, t)
      ensures ItemsBits(table, done + [t]) == ItemsBits(table, done) + ItemBits(table, t)
    {
      ItemsBitsAppend(table, done, [t]);
      assert [t][0] == t && [t][1..] == [];
      hide ItemBits, ItemCovered;
      assert ItemsBits(table, [t]) == ItemBits(table, t) + ItemsBits(table, []);
    }

    /** Emits, or just counts, a Huffman symbol. */
    method EmitSymbol(s: nat, ghost more: seq<Item>)
      requires Ready() && owed == [Symbol(s)] + more
      modifies this`done, this`owed, writer, counts
      ensures Ready() && owed == more && done + owed == old(done + owed) && writer.before == old(writer.before)
    {
      hide JustifiedWriter.Valid, ItemsCovered, ItemsBits, BitsOf, Occurrences;
      TakeHead(Symbol(s), more);
      if gather {
        CountedHead(s);
        counts[s] := counts[s] + 1;
        forall x | 0 <= x < SYMBOLS
          ensures Occurrences(done + [Symbol(s)], x) == Occurrences(done, x) + if x == s then 1 else 0
        {
          OccurrencesSnoc(done, Symbol(s), x);
        }
      } else {
        SendOne(Symbol(s));
        SymbolFacts(s);
        var ok := writer.EmitBits(table.ehufco[s], table.ehufsi[s]);
      }
      done, owed := done + [Symbol(s)], more;
    }

    lemma CountedHead(s: nat)
      requires gather && CanSend([Symbol(s)])
      ensures s < SYMBOLS
    {
      assert [Symbol(s)][0].Symbol?;
    }

    lemma SymbolFacts(s: nat)
      requires ItemCovered(table, Symbol(s))
      ensures s < |table.ehufco| == |table.ehufsi| && 1 <= table.ehufsi[s] <= 16
      ensures ItemBits(table, Symbol(s)) == BitsOf(table.ehufco[s], table.ehufsi[s])
    {
    }

    /** Emits the low size bits of code, unless statistics are gathered. */
    method EmitBits(code: nat, size: nat, ghost v: nat, ghost more: seq<Item>)
      requires Ready() && owed == [Bits(v, size)] + more && 1 <= size <= 16 && code % Pow2(size) == v
      modifies this`done, this`owed, writer, counts
      ensures Ready() && owed == more && done + owed == old(done + owed) && writer.before == old(writer.before)
    {
      hide JustifiedWriter.Valid, ItemsCovered, ItemsBits, BitsOf, Occurrences, Pow2;
      TakeHead(Bits(v, size), more);
      if gather {
        forall x | 0 <= x < SYMBOLS
          ensures Occurrences(done + [Bits(v, size)], x) == Occurrences(done, x)
        {
          OccurrencesSnoc(done, Bits(v, size), x);
        }
      } else {
        SendOne(Bits(v, size));
        BitsLow(code, size);
        var ok := writer.EmitBits(code, size);
      }
      done, owed := done + [Bits(v, size)], more;
    }

    /** Emits n correction bits from the buffer. */
    method EmitBufferedBits(start: nat, n: nat, ghost more: seq<Item>)
      requires Ready() && start + n <= MAX_CORR_BITS && owed == RawBits(bitBuffer[start..start + n]) + more
      modifies this`done, this`owed, writer, counts
      ensures Ready() && owed == more && done + owed == old(done + owed)
      ensures writer.before == old(writer.before)
    {
      hide JustifiedWriter.Valid, Sent, CanSend;
      ghost var all := bitBuffer[start..start + n];
      if gather {
        SkipRaw(all, more);
        return;
      }
      var i := 0;
      assert all[0..] == all;
      while i < n
        invariant 0 <= i <= n && bitBuffer[start..start + n] == all
        invariant Ready() && owed == RawBits(all[i..]) + more && done + owed == old(done + owed)
        invariant writer.before == old(writer.before)
      {
        assert all[i..] == [all[i]] + all[i + 1..];
        RawHead(all[i], all[i + 1..], more);
        assert all[i] % Pow2(1) == all[i];
        EmitBits(bitBuffer[start + i], 1, all[i], RawBits(all[i + 1..]) + more);
        i := i + 1;
      }
    }

    lemma RawHead(b: Bit, rest: seq<Bit>, more: seq<Item>)
      ensures RawBits([b] + rest) + more == [Bits(b, 1)] + (RawBits(rest) + more)
    {
    }

    lemma RawSnoc(bits: seq<Bit>, b: Bit)
      ensures RawBits(bits + [b]) == RawBits(bits) + [Bits(b, 1)]
    {
    }

    /** Raw bits are not counted. */
    ghost method SkipRaw(bits: seq<Bit>, more: seq<Item>)
      requires gather && Ready() && owed == RawBits(bits) + more
      modifies this`done, this`owed
      ensures Ready() && owed == more && done + owed == old(done + owed)
    {
      hide JustifiedWriter.Valid, Occurrences;
      forall s | 0 <= s < SYMBOLS
        ensures Occurrences(done + RawBits(bits), s) == Occurrences(done, s)
      {
        RawUncounted(done, bits, s);
      }
      assert forall i :: 0 <= i < |more| ==> owed[|bits| + i] == more[i];
      done, owed := done + RawBits(bits), more;
    }

    lemma {:induction false} RawUncounted(ts: seq<Item>, bits: seq<Bit>, s: nat)
      ensures Occurrences(ts + RawBits(bits), s) == Occurrences(ts, s)
    {
      if bits == [] {
        assert ts + RawBits(bits) == ts;
      } else {
        var n := |bits| - 1;
        RawUncounted(ts, bits[..n], s);
        assert bits == bits[..n] + [bits[n]];
        RawSnoc(bits[..n], bits[n]);
        assert ts + RawBits(bits) == (ts + RawBits(bits[..n])) + [Bits(bits[n], 1)];
        OccurrencesSnoc(ts + RawBits(bits[..n]), Bits(bits[n], 1), s);
      }
    }

    /** The pending run. */
    ghost function Pending(): Run
      requires be <= bitBuffer.Length
      reads this`eobrun, this`be, bitBuffer
    {
      Run(eobrun, bitBuffer[..be])
    }

    /** Emits any pending run, with its correction bits. The guard against a run too long is never taken. */
    method EmitEobrun(ghost more: seq<Item>) returns (ok: bool)
      requires Ready() && be <= MAX_CORR_BITS && eobrun <= MAX_RUN && (be > 0 ==> eobrun > 0)
      requires owed == RunItems(Pending()) + more
      modifies this`eobrun, this`be, this`done, this`owed, writer, counts
      ensures ok && Ready() && owed == more && done + owed == old(done + owed) && eobrun == 0 && be == 0
      ensures writer.before == old(writer.before)
    {
      hide JustifiedWriter.Valid, Sent, CanSend, BitLength, Pow2, RunItems, RawBits;
      ok := true;
      ghost var run := Pending();
      RunParts(run, more);
      if eobrun > 0 {
        var nbits := BitLength(eobrun) - 1;
        if nbits > 14 {
          return false;
        }
        EmitSymbol(16 * nbits, (if nbits > 0 then [Bits(eobrun % Pow2(nbits), nbits)] else [])
          + (RawBits(run.bits) + more));
        if nbits > 0 {
          EmitBits(eobrun, nbits, eobrun % Pow2(nbits), RawBits(run.bits) + more);
        }
        eobrun := 0;
        EmitBufferedBits(0, be, more);
        be := 0;
      }
    }

    lemma RunParts(run: Run, more: seq<Item>)
      ensures run.count == 0 ==> RunItems(run) + more == more
      ensures run.count > 0 ==>
        && BitLength(run.count) >= 1
        && var n := BitLength(run.count) - 1;
           RunItems(run) + more
           == [Symbol(16 * n)] + ((if n > 0 then [Bits(run.count % Pow2(n), n)] else []) + (RawBits(run.bits) + more))
      ensures 0 < run.count <= MAX_RUN ==> BitLength(run.count) <= 15
    {
      hide Pow2, BitLength, RawBits;
      if run.count > 0 {
        BitLengthBounds(run.count);
        BitLengthAtMost(run.count, 15);
        Pow2Values();
      }
    }

    // ---- first scan of a band ----

    /** Which coefficients of the band are not zero. */
    ghost function Flags(z: Zz, n: nat): (r: seq<bool>)
      requires band.ss + n <= 64
      ensures |r| == n
    {
      seq(n, k requires 0 <= k < n => z[band.ss + k] != 0)
    }

    /** A band as it is stored for its first scan, in 16 bits: magnitudes, and output bits. */
    ghost predicate StoredAs(z: Zz, n: nat, values: seq<Coef>, codes: seq<Coef>) {
      && band.ss + n <= 64 && |values| == |codes| == 64
      && forall k :: 0 <= k < n && z[band.ss + k] != 0 ==>
           && values[k] == ToCoef(Abs(z[band.ss + k]))
           && codes[k] == ToCoef(OutputCode(z[band.ss + k]))
    }

    /** The magnitude, or its complement for a negative value. */
    function OutputCode(v: int): int {
      if v < 0 then -1 - Abs(v) else v
    }

    /** Magnitudes, output bits, and the mask of the coefficients that are not zero after the point transform. */
    method PrepareFirst(b: Block) returns (values: array<Coef>, codes: array<Coef>, zerobits: nat)
      requires band.Ok()
      ensures fresh(values) && fresh(codes) && values.Length == codes.Length == 64
      ensures var z, n := Scaled(b, al), band.se - band.ss + 1;
        zerobits == Mask(Flags(z, n)) && StoredAs(z, n, values[..], codes[..])
    {
      hide Pow2, Scale, At, Mask, ToCoef;
      ghost var z := Scaled(b, al);
      values, codes, zerobits := new Coef[64](_ => 0), new Coef[64](_ => 0), 0;
      NoFlags(z);
      for k := 0 to band.se - band.ss + 1
        invariant zerobits == Mask(Flags(z, k)) && StoredAs(z, k, values[..], codes[..])
      {
        var coef := At(b, band.ss + k);
        StageBefore(coef, al);
        OneFlagMore(z, k);
        var temp := Abs(coef) / Pow2(al);
        if temp != 0 {
          assert OutputCode(z[band.ss + k]) == if coef < 0 then -1 - temp else temp;
          values[k] := ToCoef(temp);
          codes[k] := ToCoef(if coef < 0 then -1 - temp else temp);
          zerobits := zerobits + Pow2(k);
        }
      }
    }

    lemma NoFlags(z: Zz)
      requires band.ss <= 64
      ensures Mask(Flags(z, 0)) == 0
    {
    }

    lemma OneFlagMore(z: Zz, k: nat)
      requires band.ss + k < 64
      ensures Mask(Flags(z, k + 1)) == Mask(Flags(z, k)) + if z[band.ss + k] != 0 then Pow2(k) else 0
    {
      hide Mask, Pow2;
      MaskSnoc(Flags(z, k), z[band.ss + k] != 0);
      assert Flags(z, k + 1) == Flags(z, k) + [z[band.ss + k] != 0];
    }

    /**
      A stored magnitude has the size of the value up to 10 bits and is too long beyond; then the stored output bits,
      as a 32-bit number, end in the bits that stand for the value.
    */
    lemma StoredValue(v: int)
      requires v != 0 && Abs(v) <= 0x8000
      ensures var temp, n := ToCoef(Abs(v)) % 0x1_0000_0000, BitLength(Abs(v));
        && (BitLength(temp) <= MAX_COEF_BITS <==> n <= MAX_COEF_BITS)
        && (n <= MAX_COEF_BITS ==>
              BitLength(temp) == n >= 1 && ToCoef(OutputCode(v)) % 0x1_0000_0000 % Pow2(n) == Extra(v))
    {
      hide Pow2, BitLength, Extra;
      var n := BitLength(Abs(v));
      BitLengthBounds(Abs(v));
      BitLengthAtMost(Abs(v), 11);
      Pow2Values();
      if Abs(v) == 0x8000 {
        assert ToCoef(0x8000) % 0x1_0000_0000 == 0xFFFF_8000;
        BitLengthAtMost(0xFFFF_8000, 11);
      } else {
        ToCoefExact(Abs(v), Abs(v), 0);
        ToCoefExact(OutputCode(v), OutputCode(v), 0);
        ExtraCode(v);
      }
    }

    /** The complement of a magnitude, as a 32-bit number, ends in the bits that stand for the negative value. */
    lemma ExtraCode(v: int)
      requires -0x8000 < v < 0x8000
      ensures OutputCode(v) % 0x1_0000_0000 % Pow2(BitLength(Abs(v))) == Extra(v)
    {
      hide Pow2, BitLength;
      var n := BitLength(Abs(v));
      BitLengthAtMost(Abs(v), n);
      BitLengthAtMost(Abs(v), 16);
      Pow2Values();
      if v < 0 {
        RegisterSize();
        Pow2Sum(32 - n, n);
        assert (32 - n) + n == 32;
        Complement(Abs(v), Pow2(n), Pow2(32 - n));
      } else {
        DivModUnique(v, 0, v, Pow2(n));
      }
    }

    lemma Complement(a: nat, p: nat, q: nat)
      requires a < p && q >= 1 && q * p == 0x1_0000_0000
      ensures a <= 0xFFFF_FFFF && (0xFFFF_FFFF - a) % p == p - 1 - a
    {
      MulMonotone(1, q, p);
      assert (q - 1) * p == q * p - p;
      DivModUnique(0xFFFF_FFFF - a, q - 1, p - 1 - a, p);
    }

    /** Between blocks. */
    ghost predicate Valid()
      reads this`eobrun, this`be, this`done, writer, counts, bitBuffer
    {
      && band.Ok() && bitBuffer.Length == MAX_CORR_BITS && be <= MAX_CORR_BITS
      && Sent() && RunOk(Pending()) && (!band.refine ==> be == 0)
    }

    /** Owes what a block brings. */
    ghost method Plan(ts: seq<Item>)
      requires Valid() && CanSend(ts)
      modifies this`owed
      ensures Ready() && owed == ts
    {
      owed := ts;
    }

    /** Walks the mask and emits each coefficient that is not zero, with the run of zeros before it. */
    method EncodeCoefs(values: array<Coef>, codes: array<Coef>, zerobits0: nat, ghost z: Zz, ghost more: seq<Item>)
        returns (ok: bool, pos: nat)
      requires band.Ok() && Ready() && owed == FirstItems(z, band.ss, band.se, 0) + more
      requires (values as object) != counts && (codes as object) != counts
      requires var n := band.se - band.ss + 1;
        zerobits0 == Mask(Flags(z, n)) && StoredAs(z, n, values[..], codes[..])
      requires forall i :: 0 <= i < 64 ==> Abs(z[i]) <= 0x8000
      modifies this`done, this`owed, writer, counts
      ensures ok <==> band.InRange(z)
      ensures ok ==> Ready() && owed == more && done + owed == old(done + owed)
      ensures ok ==> pos <= band.se - band.ss + 1 && (pos > 0 ==> z[band.ss + pos - 1] != 0)
      ensures ok ==> forall i :: band.ss + pos <= i <= band.se ==> z[i] == 0
      ensures writer.before == old(writer.before)
    {
      hide JustifiedWriter.Valid, Sent, CanSend, FirstItems, Mask, BitLength, Pow2, ToCoef;
      ghost var flags, n := Flags(z, band.se - band.ss + 1), band.se - band.ss + 1;
      var zerobits := zerobits0;
      pos := 0;
      assert flags[0..] == flags;
      while zerobits != 0
        invariant pos <= n && zerobits == Mask(flags[pos..]) && (pos > 0 ==> z[band.ss + pos - 1] != 0)
        invariant Ready() && owed == FirstItems(z, band.ss + pos, band.se, 0) + more && done + owed == old(done + owed)
        invariant forall i :: band.ss <= i < band.ss + pos ==> BitLength(Abs(z[i])) <= MAX_COEF_BITS
        invariant writer.before == old(writer.before)
        decreases n - pos
      {
        var r;
        r, zerobits := CountZeroes(zerobits, flags, pos);
        ClearFlags(flags, z, pos, pos + r);
        FirstSkip(z, band.ss + pos, band.ss + pos + r, band.se, 0);
        ZeroSize(z, band.ss + pos, band.ss + pos + r);
        pos := pos + r;
        ok := EncodeOne(values[pos], codes[pos], r, z, band.ss + pos, more);
        if !ok {
          return;
        }
        MaskHead(flags, pos);
        pos := pos + 1;
        zerobits := zerobits / 2;
      }
      RestClear(flags, pos);
      ClearFlags(flags, z, pos, n);
      FirstSkip(z, band.ss + pos, band.se + 1, band.se, 0);
      NoItems(z, band.se - band.ss + 1 - pos);
      ZeroSize(z, band.ss + pos, band.se + 1);
      ok := true;
    }

    lemma RestClear(flags: seq<bool>, pos: nat)
      requires pos <= |flags| && Mask(flags[pos..]) == 0
      ensures forall i :: pos <= i < |flags| ==> !flags[i]
    {
      MaskZero(flags[pos..]);
      forall i | pos <= i < |flags|
        ensures !flags[i]
      {
        assert !flags[pos..][i - pos];
      }
    }

    lemma ClearFlags(flags: seq<bool>, z: Zz, pos: nat, j: nat)
      requires band.Ok() && flags == Flags(z, band.se - band.ss + 1) && pos <= j <= |flags|
      requires forall i :: pos <= i < j ==> !flags[i]
      ensures forall i :: band.ss + pos <= i < band.ss + j ==> z[i] == 0
    {
      forall i | band.ss + pos <= i < band.ss + j
        ensures z[i] == 0
      {
        assert !flags[i - band.ss];
      }
    }

    lemma NoItems(z: Zz, r: nat)
      requires band.se < 64
      ensures FirstItems(z, band.se + 1, band.se, r) == []
    {
    }

    lemma ZeroSize(z: Zz, k: nat, j: nat)
      requires j <= 64 && forall i :: k <= i < j ==> z[i] == 0
      ensures forall i :: k <= i < j ==> BitLength(Abs(z[i])) <= MAX_COEF_BITS
    {
    }

    /** Emits one coefficient behind r zeros. */
    method EncodeOne(temp: int, code: int, r0: nat, ghost z: Zz, ghost k: nat, ghost more: seq<Item>) returns (ok: bool)
      requires k <= band.se < 64 && z[k] != 0 && Abs(z[k]) <= 0x8000
      requires temp == ToCoef(Abs(z[k])) && code == ToCoef(OutputCode(z[k]))
      requires Ready() && owed == FirstItems(z, k, band.se, r0) + more
      modifies this`done, this`owed, writer, counts
      ensures ok <==> BitLength(Abs(z[k])) <= MAX_COEF_BITS
      ensures ok ==> Ready() && owed == FirstItems(z, k + 1, band.se, 0) + more && done + owed == old(done + owed)
      ensures writer.before == old(writer.before)
    {
      hide JustifiedWriter.Valid, Sent, CanSend, FirstItems, BitLength, Pow2, Extra, ToCoef;
      var r: nat := r0;
      while r > 15
        invariant Ready() && owed == FirstItems(z, k, band.se, r) + more && done + owed == old(done + owed)
        invariant writer.before == old(writer.before)
      {
        FirstStep(z, k, band.se, r, more);
        EmitSymbol(0xF0, FirstItems(z, k, band.se, r - 16) + more);
        r := r - 16;
      }
      FirstStep(z, k, band.se, r, more);
      StoredValue(z[k]);
      var nbits := BitLength(temp % 0x1_0000_0000);
      if nbits > MAX_COEF_BITS {
        return false;
      }
      EmitSymbol(16 * r + nbits, [Bits(Extra(z[k]), nbits)] + (FirstItems(z, k + 1, band.se, 0) + more));
      EmitBits(code % 0x1_0000_0000, nbits, Extra(z[k]), FirstItems(z, k + 1, band.se, 0) + more);
      ok := true;
    }

    /** Encodes a band sent for the first time. */
    method EncodeMcuAcFirst(b: Block) returns (ok: bool)
      requires Valid() && !band.refine && CanSend(band.BlockItems(Scaled(b, al), Pending()))
      modifies this`eobrun, this`be, this`done, this`owed, writer, counts
      ensures ok <==> band.InRange(Scaled(b, al))
      ensures ok ==> Valid() && done == old(done + band.BlockItems(Scaled(b, al), Pending()))
      ensures ok ==> Pending() == old(band.BlockRun(Scaled(b, al), Pending()))
      ensures writer.before == old(writer.before)
    {
      hide JustifiedWriter.Valid, Sent, CanSend, Band.InRange, FirstItems, Scaled, RunItems, Mask, BitLength, Extra, Pow2;
      ghost var z, run := Scaled(b, al), Pending();
      Plan(band.BlockItems(z, run));
      RunStaysOk(band, z, run);
      ScaledMagnitudes(b);
      var values, codes, zerobits := PrepareFirst(b);
      QuietMask(z, zerobits);
      ok := BeginBand(zerobits, z);
      ghost var more := if zerobits != 0 then [] else owed;
      var pos;
      ok, pos := EncodeCoefs(values, codes, zerobits, z, more);
      if !ok {
        return;
      }
      if pos < band.se - band.ss + 1 {
        ok := CountBand(0);
      }
    }

    /** Emits any pending run before a band that has something in it. */
    method BeginBand(zerobits: nat, ghost z: Zz) returns (ok: bool)
      requires Ready() && band.Ok() && !band.refine && be <= MAX_CORR_BITS && RunOk(Pending())
      requires owed == band.BlockItems(z, Pending())
      requires zerobits == 0 <==> band.Quiet(z)
      requires band.Quiet(z) ==> FirstItems(z, band.ss, band.se, 0) == []
      modifies this`eobrun, this`be, this`done, this`owed, writer, counts
      ensures ok && Ready() && done + owed == old(done + owed) && writer.before == old(writer.before)
      ensures owed == FirstItems(z, band.ss, band.se, 0) + if zerobits != 0 then [] else owed
      ensures if zerobits == 0 then owed == old(owed) && eobrun == old(eobrun) && be == old(be)
        else eobrun == 0 && be == 0
    {
      hide JustifiedWriter.Valid, Sent, CanSend, FirstItems, RunItems;
      NoRunItems(FirstItems(z, band.ss, band.se, 0));
      ok := true;
      if zerobits != 0 && eobrun > 0 {
        ok := EmitEobrun(FirstItems(z, band.ss, band.se, 0));
      }
    }

    /** The run with one more band and br more correction bits. */
    ghost function Longer(br: nat): Run
      requires be + br <= bitBuffer.Length
      reads this`eobrun, this`be, bitBuffer
    {
      Run(eobrun + 1, bitBuffer[..be + br])
    }

    /** Counts an end of band, and forces the run out if it is full. */
    method CountBand(br: nat) returns (ok: bool)
      requires Ready() && be + br <= MAX_CORR_BITS && eobrun < MAX_RUN
      requires owed == if Full(Longer(br)) then RunItems(Longer(br)) else []
      modifies this`eobrun, this`be, this`done, this`owed, writer, counts
      ensures ok && Ready() && be <= MAX_CORR_BITS && done == old(done + owed) && owed == []
      ensures Pending() == old(if Full(Longer(br)) then NO_RUN else Longer(br))
      ensures writer.before == old(writer.before)
    {
      hide JustifiedWriter.Valid, Sent, CanSend, RunItems;
      ok := true;
      eobrun := eobrun + 1;
      be := be + br;
      if eobrun == MAX_RUN || be > MAX_CORR_BITS - 64 + 1 {
        assert owed == RunItems(Pending()) + [];
        ok := EmitEobrun([]);
      }
    }

    lemma QuietMask(z: Zz, zerobits: nat)
      requires band.Ok() && !band.refine && zerobits == Mask(Flags(z, band.se - band.ss + 1))
      ensures zerobits == 0 <==> band.Quiet(z)
      ensures band.Quiet(z) ==> FirstItems(z, band.ss, band.se, 0) == []
    {
      var flags := Flags(z, band.se - band.ss + 1);
      MaskZero(flags);
      if band.Quiet(z) {
        assert forall i :: 0 <= i < |flags| ==> !flags[i];
        FirstSkip(z, band.ss, band.se + 1, band.se, 0);
      } else {
        var i :| band.ss <= i <= band.se && z[i] != 0;
        assert flags[i - band.ss];
      }
    }

    lemma NoRunItems(more: seq<Item>)
      ensures RunItems(NO_RUN) == []
      ensures forall run: Run :: run.count == 0 ==> RunItems(run) + more == more
    {
    }

    // ---- refinement of a band ----

    ghost function Signs(z: Zz, n: nat): (r: seq<bool>)
      requires band.ss + n <= 64
      ensures |r| == n
    {
      seq(n, k requires 0 <= k < n => z[band.ss + k] > 0)
    }

    /**
      Magnitudes, stored in 16 bits, the masks of nonzero and of positive coefficients, and the position of the last
      that is new.
    */
    method PrepareRefine(b: Block) returns (absvalues: array<Coef>, zerobits: nat, signbits: nat, eob: nat)
      requires band.Ok()
      ensures fresh(absvalues) && absvalues.Length == 64
      ensures var z, n := Scaled(b, al), band.se - band.ss + 1;
        && zerobits == Mask(Flags(z, n)) && signbits == Mask(Signs(z, n))
        && (forall k :: 0 <= k < n ==> absvalues[k] == ToCoef(Abs(z[band.ss + k])))
        && band.ss + eob == LastOne(z, band.ss, band.se)
    {
      hide Pow2, Scale, At, Mask, LastOne, ToCoef;
      ghost var z := Scaled(b, al);
      absvalues, zerobits, signbits, eob := new Coef[64](_ => 0), 0, 0, 0;
      NoFlags(z);
      NoSigns(z);
      LastOneStep(z, 0);
      for k := 0 to band.se - band.ss + 1
        invariant zerobits == Mask(Flags(z, k)) && signbits == Mask(Signs(z, k))
        invariant forall i :: 0 <= i < k ==> absvalues[i] == ToCoef(Abs(z[band.ss + i]))
        invariant band.ss + eob == LastOne(z, band.ss, if k == 0 then band.ss else band.ss + k - 1)
      {
        var coef := At(b, band.ss + k);
        StageBefore(coef, al);
        OneFlagMore(z, k);
        OneSignMore(z, k);
        LastOneStep(z, k);
        var temp := Abs(coef) / Pow2(al);
        if temp != 0 {
          zerobits := zerobits + Pow2(k);
          signbits := signbits + if coef < 0 then 0 else Pow2(k);
        }
        absvalues[k] := ToCoef(temp);
        if temp == 1 {
          eob := k;
        }
      }
    }

    lemma NoSigns(z: Zz)
      requires band.ss <= 64
      ensures Mask(Signs(z, 0)) == 0
    {
    }

    lemma OneSignMore(z: Zz, k: nat)
      requires band.ss + k < 64
      ensures Mask(Signs(z, k + 1)) == Mask(Signs(z, k)) + if z[band.ss + k] > 0 then Pow2(k) else 0
    {
      hide Mask, Pow2;
      MaskSnoc(Signs(z, k), z[band.ss + k] > 0);
      assert Signs(z, k + 1) == Signs(z, k) + [z[band.ss + k] > 0];
    }

    lemma LastOneStep(z: Zz, k: nat)
      requires band.Ok() && band.ss + k <= band.se
      ensures LastOne(z, band.ss, band.ss) == band.ss
      ensures LastOne(z, band.ss, band.ss + k)
        == if Abs(z[band.ss + k]) == 1 then band.ss + k
           else LastOne(z, band.ss, if k == 0 then band.ss else band.ss + k - 1)
    {
    }

    /** In the middle of a band: br correction bits wait behind those of the pending run, r zeros are uncounted. */
    ghost predicate Walking(z: Zz, k: nat, eob: nat, r: nat, br: nat, quiet: bool, run: Run, tail: Run, more: seq<Item>)
      reads this`eobrun, this`be, this`done, this`owed, writer, counts, bitBuffer
    {
      && Ready() && band.Ok() && be + br <= MAX_CORR_BITS && RunOk(Pending())
      && owed == (if quiet then [] else RunItems(Pending()))
                 + (RefineItems(z, k, band.se, eob, r, bitBuffer[be..be + br]) + more)
      && RefineTail(z, k, band.se, eob, r, bitBuffer[be..be + br]) == tail
      && (if quiet then Pending() == run else (k <= 64 && NoOnes(z, band.ss, k)) || eobrun == 0)
    }

    /** What a walk that is not quiet owes next. */
    lemma WalkOwes(z: Zz, k: nat, eob: nat, r: nat, br: nat, run: Run, tail: Run, more: seq<Item>)
      requires Walking(z, k, eob, r, br, false, run, tail, more) && k <= band.se && z[k] != 0
      ensures Ready() && be + br <= MAX_CORR_BITS && eobrun <= MAX_RUN && (be > 0 ==> eobrun > 0) && band.Ok()
      ensures var bits := bitBuffer[be..be + br];
        && (r > 15 && k <= eob ==>
              && owed == RunItems(Pending())
                 + ([Symbol(0xF0)] + (RawBits(bits) + (RefineItems(z, k, band.se, eob, r - 16, []) + more)))
              && RefineTail(z, k, band.se, eob, r - 16, []) == tail)
        && (!(r > 15 && k <= eob) && Abs(z[k]) == 1 ==>
              && owed == RunItems(Pending())
                 + ([Symbol(16 * r + 1)]
                 + ([SignItem(z[k])] + (RawBits(bits) + (RefineItems(z, k + 1, band.se, eob, 0, []) + more))))
              && RefineTail(z, k + 1, band.se, eob, 0, []) == tail)
    {
      hide JustifiedWriter.Valid, Sent, CanSend, RefineItems, RefineTail, RunItems, RawBits;
      RefineStep(z, k, band.se, eob, r, bitBuffer[be..be + br], more);
    }

    lemma WalksOn(z: Zz, k: nat, eob: nat, r: nat, run: Run, tail: Run, more: seq<Item>)
      requires Ready() && band.Ok() && eobrun == be == 0
      requires owed == RefineItems(z, k, band.se, eob, r, []) + more && RefineTail(z, k, band.se, eob, r, []) == tail
      ensures Walking(z, k, eob, r, 0, false, run, tail, more)
    {
      hide JustifiedWriter.Valid, Sent, CanSend, RefineItems, RefineTail;
      assert bitBuffer[be..be + 0] == [];
    }

    /** Emits a run of sixteen zeros, after any pending run and before the waiting correction bits. */
    method EmitZeros(k: nat, eob: nat, r: nat, br: nat, ghost z: Zz, ghost run: Run, ghost tail: Run,
                     ghost more: seq<Item>)
      requires Walking(z, k, eob, r, br, false, run, tail, more) && k <= band.se < 64 && z[k] != 0 && r > 15 && k <= eob
      modifies this`eobrun, this`be, this`done, this`owed, writer, counts
      ensures Walking(z, k, eob, r - 16, 0, false, run, tail, more) && eobrun == be == 0
      ensures done + owed == old(done + owed) && writer.before == old(writer.before)
    {
      hide Walking, JustifiedWriter.Valid, Sent, CanSend, RefineItems, RefineTail, RunItems, RawBits;
      WalkOwes(z, k, eob, r, br, run, tail, more);
      var start := be;
      ghost var bits, rest := bitBuffer[be..be + br], RefineItems(z, k, band.se, eob, r - 16, []) + more;
      var ok := EmitEobrun([Symbol(0xF0)] + (RawBits(bits) + rest));
      EmitSymbol(0xF0, RawBits(bits) + rest);
      EmitBufferedBits(start, br, rest);
      WalksOn(z, k, eob, r - 16, run, tail, more);
    }

    /** Emits a coefficient that becomes nonzero. */
    method EmitNew(k: nat, eob: nat, r: nat, br: nat, sign: nat, ghost z: Zz, ghost run: Run, ghost tail: Run,
                   ghost more: seq<Item>)
      requires Walking(z, k, eob, r, br, false, run, tail, more) && k <= band.se < 64 && Abs(z[k]) == 1
      requires (r > 15 ==> k > eob) && sign % 2 == if z[k] < 0 then 0 else 1
      modifies this`eobrun, this`be, this`done, this`owed, writer, counts
      ensures Walking(z, k + 1, eob, 0, 0, false, run, tail, more) && eobrun == be == 0
      ensures done + owed == old(done + owed) && writer.before == old(writer.before)
    {
      hide Walking, JustifiedWriter.Valid, Sent, CanSend, RefineItems, RefineTail, RunItems, RawBits, Pow2;
      WalkOwes(z, k, eob, r, br, run, tail, more);
      OneBit(sign);
      var start := be;
      ghost var bits, rest := bitBuffer[be..be + br], RefineItems(z, k + 1, band.se, eob, 0, []) + more;
      ghost var after := RawBits(bits) + rest;
      var ok := EmitEobrun([Symbol(16 * r + 1)] + ([SignItem(z[k])] + after));
      EmitSymbol(16 * r + 1, [SignItem(z[k])] + after);
      EmitBits(sign % 2, 1, if z[k] < 0 then 0 else 1, after);
      EmitBufferedBits(start, br, rest);
      WalksOn(z, k + 1, eob, 0, run, tail, more);
    }

    lemma OneBit(v: nat)
      ensures v % 2 % Pow2(1) == v % 2
    {
    }

    /** Zeros only lengthen the run. */
    lemma WalkZeros(z: Zz, k: nat, j: nat, eob: nat, r: nat, br: nat, quiet: bool, run: Run, tail: Run, more: seq<Item>)
      requires Walking(z, k, eob, r, br, quiet, run, tail, more) && k <= j <= band.se + 1
      requires forall i :: k <= i < j ==> z[i] == 0
      ensures Walking(z, j, eob, r + (j - k), br, quiet, run, tail, more)
    {
      hide JustifiedWriter.Valid, Sent, CanSend, RefineItems, RefineTail, RunItems;
      RefineSkip(z, k, j, band.se, eob, r, bitBuffer[be..be + br]);
    }

    /** A coefficient that was nonzero before only needs a correction bit, which waits in the buffer. */
    method AddCorrection(k: nat, eob: nat, r: nat, br: nat, temp: nat, ghost z: Zz, ghost quiet: bool, ghost run: Run,
                         ghost tail: Run, ghost more: seq<Item>)
      requires Walking(z, k, eob, r, br, quiet, run, tail, more) && k <= band.se < 64 && temp == Abs(z[k]) > 1
      requires (r > 15 ==> k > eob) && br < 63
      modifies bitBuffer
      ensures Walking(z, k + 1, eob, r, br + 1, quiet, run, tail, more)
    {
      hide JustifiedWriter.Valid, Sent, CanSend, RefineItems, RefineTail, RunItems;
      RefineStep(z, k, band.se, eob, r, bitBuffer[be..be + br], more);
      assert be <= MAX_CORR_BITS - 63;
      ghost var run, bits := bitBuffer[..be], bitBuffer[be..be + br];
      bitBuffer[be + br] := temp % 2;
      assert bitBuffer[..be] == run && bitBuffer[be..be + (br + 1)] == bits + [temp % 2];
    }

    /** What the signed test for more than one makes of a stored magnitude. */
    ghost predicate SeenAs(temp: int, v: int) {
      if temp > 1 then Abs(v) == temp else Abs(v) <= 1
    }

    /** One coefficient that is not zero: runs of sixteen zeros first, then its new sign or its correction bit. */
    method RefineOne(temp: int, sign: nat, k: nat, eob: nat, r0: nat, br0: nat, ghost z: Zz, ghost quiet: bool,
                     ghost run: Run, ghost tail: Run, ghost more: seq<Item>)
        returns (r: nat, br: nat)
      requires Walking(z, k, eob, r0, br0, quiet, run, tail, more) && k <= band.se < 64
      requires SeenAs(temp, z[k]) && z[k] != 0 && sign % 2 == (if z[k] < 0 then 0 else 1) && br0 < 63
      requires quiet ==> temp > 1 && (r0 > 15 ==> k > eob)
      modifies this`eobrun, this`be, this`done, this`owed, writer, counts, bitBuffer
      ensures Walking(z, k + 1, eob, r, br, quiet, run, tail, more) && br <= br0 + 1 && r <= r0
      ensures done + owed == old(done + owed) && writer.before == old(writer.before)
    {
      hide Walking, JustifiedWriter.Valid, Sent, CanSend, RefineItems, RefineTail, RunItems;
      r, br := r0, br0;
      WalkBounds(z, k, eob, r, br, quiet, run, tail, more);
      while r > 15 && k <= eob
        invariant Walking(z, k, eob, r, br, quiet, run, tail, more) && br <= br0 && r <= r0
        invariant done + owed == old(done + owed) && writer.before == old(writer.before)
        invariant quiet ==> r == r0
      {
        EmitZeros(k, eob, r, br, z, run, tail, more);
        r := r - 16;
        br := 0;
      }
      if temp > 1 {
        WalkBounds(z, k, eob, r, br, quiet, run, tail, more);
        AddCorrection(k, eob, r, br, temp, z, quiet, run, tail, more);
        br := br + 1;
      } else {
        EmitNew(k, eob, r, br, sign, z, run, tail, more);
        r, br := 0, 0;
      }
    }

    lemma WalkBounds(z: Zz, k: nat, eob: nat, r: nat, br: nat, quiet: bool, run: Run, tail: Run, more: seq<Item>)
      requires Walking(z, k, eob, r, br, quiet, run, tail, more)
      ensures bitBuffer.Length == MAX_CORR_BITS && be <= MAX_CORR_BITS - 63
    {
    }

    /** What the masks say from pos on. */
    ghost predicate Masks(z: Zz, zerobits: nat, signbits: nat, pos: nat) {
      && band.Ok() && pos <= band.se - band.ss + 1
      && zerobits == Mask(Flags(z, band.se - band.ss + 1)[pos..])
      && signbits == Mask(Signs(z, band.se - band.ss + 1)[pos..])
    }

    lemma MasksStart(z: Zz, zerobits: nat, signbits: nat)
      requires band.Ok()
      requires var n := band.se - band.ss + 1; zerobits == Mask(Flags(z, n)) && signbits == Mask(Signs(z, n))
      ensures Masks(z, zerobits, signbits, 0)
    {
      hide Mask;
      var n := band.se - band.ss + 1;
      assert Flags(z, n)[0..] == Flags(z, n) && Signs(z, n)[0..] == Signs(z, n);
    }

    lemma MasksEnd(z: Zz, signbits: nat, pos: nat)
      requires Masks(z, 0, signbits, pos)
      ensures forall i :: band.ss + pos <= i <= band.se ==> z[i] == 0
    {
      hide Mask;
      var flags := Flags(z, band.se - band.ss + 1);
      RestClear(flags, pos);
      ClearFlags(flags, z, pos, |flags|);
    }

    /** Moves the masks to the next coefficient that is not zero. */
    method NextInMask(zerobits0: nat, signbits0: nat, pos0: nat, ghost z: Zz)
        returns (zerobits: nat, signbits: nat, idx: nat)
      requires Masks(z, zerobits0, signbits0, pos0) && zerobits0 != 0
      ensures var pos := pos0 + idx; var k := band.ss + pos;
        && k <= band.se < 64 && z[k] != 0 && signbits % 2 == (if z[k] < 0 then 0 else 1)
        && Masks(z, zerobits / 2, signbits / 2, pos + 1)
      ensures forall i :: band.ss + pos0 <= i < band.ss + pos0 + idx ==> z[i] == 0
    {
      hide Mask, Pow2;
      ghost var flags, signs := Flags(z, band.se - band.ss + 1), Signs(z, band.se - band.ss + 1);
      idx, zerobits := CountZeroes(zerobits0, flags, pos0);
      ClearFlags(flags, z, pos0, pos0 + idx);
      MaskShift(signs, pos0, idx);
      signbits := signbits0 / Pow2(idx);
      MaskHead(signs, pos0 + idx);
      MaskHead(flags, pos0 + idx);
    }

    /** Walks the mask of a band to be refined. */
    method WalkBand(absvalues: array<Coef>, zerobits0: nat, signbits0: nat, eob: nat, ghost z: Zz, ghost quiet: bool,
                    ghost run: Run, ghost tail: Run, ghost more: seq<Item>)
        returns (r: nat, br: nat)
      requires band.Ok() && absvalues.Length == 64 && (absvalues as object) != counts && Masks(z, zerobits0, signbits0, 0)
      requires Walking(z, band.ss, band.ss + eob, 0, 0, quiet, run, tail, more)
      requires forall k :: 0 <= k < band.se - band.ss + 1 ==> SeenAs(absvalues[k], z[band.ss + k])
      requires quiet ==> NoOnes(z, band.ss, band.se + 1) && eob == 0
      modifies this`eobrun, this`be, this`done, this`owed, writer, counts, bitBuffer
      ensures Walking(z, band.se + 1, band.ss + eob, r, br, quiet, run, tail, more) && br <= 63
      ensures done + owed == old(done + owed) && writer.before == old(writer.before)
    {
      hide Walking, Masks, JustifiedWriter.Valid, Sent, CanSend;
      var zerobits, signbits := zerobits0, signbits0;
      var pos: nat := 0;
      r, br := 0, 0;
      while zerobits != 0
        invariant pos <= band.se - band.ss + 1 && Masks(z, zerobits, signbits, pos)
        invariant Walking(z, band.ss + pos, band.ss + eob, r, br, quiet, run, tail, more)
        invariant r <= pos && br <= pos
        invariant done + owed == old(done + owed) && writer.before == old(writer.before)
        decreases band.se - band.ss + 1 - pos
      {
        var idx;
        zerobits, signbits, idx := NextInMask(zerobits, signbits, pos, z);
        WalkZeros(z, band.ss + pos, band.ss + pos + idx, band.ss + eob, r, br, quiet, run, tail, more);
        r := r + idx;
        pos := pos + idx;
        r, br := RefineOne(absvalues[pos], signbits, band.ss + pos, band.ss + eob, r, br, z, quiet, run, tail, more);
        pos := pos + 1;
        signbits := signbits / 2;
        zerobits := zerobits / 2;
      }
      MasksEnd(z, signbits, pos);
      WalkZeros(z, band.ss + pos, band.se + 1, band.ss + eob, r, br, quiet, run, tail, more);
      r := r + (band.se - band.ss + 1 - pos);
    }

    /** Encodes the refinement of a band. */
    method EncodeMcuAcRefine(b: Block)
      requires Valid() && band.refine && CanSend(band.SentItems(Scaled(b, al), Pending()))
      modifies this`eobrun, this`be, this`done, this`owed, writer, counts, bitBuffer
      ensures Valid() && done == old(done + band.SentItems(Scaled(b, al), Pending()))
      ensures Pending() == old(band.SentRun(Scaled(b, al), Pending()))
      ensures writer.before == old(writer.before)
    {
      hide Walking, JustifiedWriter.Valid, Sent, CanSend, RefineItems, RefineTail, RunItems, Mask, Scaled, LastOne,
        Correct, Band.Walked, ToCoef;
      ghost var z, run := Scaled(b, al), Pending();
      ghost var w := band.Walked(z);
      ghost var quiet, tail := band.Quiet(w), RefineTail(w, band.ss, band.se, LastOne(z, band.ss, band.se), 0, []);
      Plan(band.SentItems(z, run));
      var absvalues, zerobits, signbits, eob := PrepareRefine(b);
      ghost var more := if quiet then owed else [];
      StoredBand(b, absvalues[..]);
      BeginWalk(z, w, band.ss + eob, quiet, run, tail, more);
      MasksStart(w, zerobits, signbits);
      var r, br := WalkBand(absvalues, zerobits, signbits, eob, w, quiet, run, tail, more);
      EndWalk(z, w, band.ss + eob, r, br, quiet, run, tail, more);
      if r > 0 || br > 0 {
        var ok := CountBand(br);
      }
    }

    /** Of each coefficient the stored magnitude and the masks show what the walk takes it for. */
    lemma StoredBand(b: Block, absvalues: seq<Coef>)
      requires band.Ok() && band.refine && |absvalues| == 64
      requires forall k :: 0 <= k < band.se - band.ss + 1 ==> absvalues[k] == ToCoef(Abs(Scaled(b, al)[band.ss + k]))
      ensures var z, n := Scaled(b, al), band.se - band.ss + 1;
        && Flags(band.Walked(z), n) == Flags(z, n) && Signs(band.Walked(z), n) == Signs(z, n)
        && forall k :: 0 <= k < n ==> SeenAs(absvalues[k], band.Walked(z)[band.ss + k])
    {
      hide Scaled;
      ScaledMagnitudes(b);
    }

    lemma ScaledMagnitudes(b: Block)
      ensures forall i :: 0 <= i < 64 ==> Abs(Scaled(b, al)[i]) <= 0x8000
    {
      hide Scale, At, Pow2;
      forall i | 0 <= i < 64
        ensures Abs(Scaled(b, al)[i]) <= 0x8000
      {
        StageBefore(At(b, i), al);
        ScaledMagnitude(At(b, i), Pow2(al));
      }
    }

    lemma ScaledMagnitude(v: Coef, p: nat)
      requires p >= 1
      ensures 0 <= Abs(v) / p <= 0x8000
    {
      var a: nat := Abs(v);
      assert a / p * p <= a;
      MulMonotone(1, p, a / p);
    }

    lemma BeginWalk(z: Zz, w: Zz, eob: nat, quiet: bool, run: Run, tail: Run, more: seq<Item>)
      requires Ready() && band.Ok() && band.refine && be <= MAX_CORR_BITS && RunOk(Pending())
      requires w == band.Walked(z) && quiet == band.Quiet(w) && eob == LastOne(z, band.ss, band.se)
      requires owed == band.SentItems(z, Pending()) && run == Pending() && more == if quiet then owed else []
      requires tail == RefineTail(w, band.ss, band.se, eob, 0, [])
      ensures Walking(w, band.ss, eob, 0, 0, quiet, run, tail, more)
      ensures quiet ==> eob == band.ss
    {
      hide JustifiedWriter.Valid, Sent, CanSend, RefineItems, RefineTail, RunItems, Correct, LastOne;
      assert bitBuffer[be..be + 0] == [];
      if quiet {
        QuietBand(z, band.ss, band.se);
      }
    }

    lemma EndWalk(z: Zz, w: Zz, eob: nat, r: nat, br: nat, quiet: bool, run: Run, tail: Run, more: seq<Item>)
      requires band.Ok() && band.refine && w == band.Walked(z)
      requires quiet == band.Quiet(w) && eob == LastOne(z, band.ss, band.se)
      requires Walking(w, band.se + 1, eob, r, br, quiet, run, tail, more) && br <= 63 && RunOk(run)
      requires tail == RefineTail(w, band.ss, band.se, eob, 0, [])
      requires more == if quiet then band.SentItems(z, run) else []
      ensures Ready() && be + br <= MAX_CORR_BITS && eobrun < MAX_RUN
      ensures r > 0 || br > 0 ==>
        && owed == (if Full(Longer(br)) then RunItems(Longer(br)) else [])
        && band.SentRun(z, run) == if Full(Longer(br)) then NO_RUN else Longer(br)
      ensures r == 0 && br == 0 ==> owed == [] && band.SentRun(z, run) == Pending()
      ensures RunOk(band.SentRun(z, run))
    {
      hide JustifiedWriter.Valid, Sent, CanSend, RefineItems, RefineTail, RunItems, Correct, LastOne;
      var bits := bitBuffer[be..be + br];
      RefineEnd(w, band.se, eob, r, bits);
      RunStaysOk(band, z, run);
      NoRunItems([]);
      if quiet {
        QuietBand(z, band.ss, band.se);
        assert bitBuffer[..be + br] == bitBuffer[..be] + bits;
      } else {
        assert be == 0 && bitBuffer[..be + br] == bits;
      }
    }

    /** The first part of what is owed can be sent, and so can the rest. */
    lemma SendParts(a: seq<Item>, b: seq<Item>)
      requires CanSend(a + b)
      ensures CanSend(a) && CanSend(b)
    {
      if gather {
        assert forall i :: 0 <= i < |a| ==> (a + b)[i] == a[i];
        assert forall i :: 0 <= i < |b| ==> (a + b)[|a| + i] == b[i];
      } else {
        ItemsParts(table, a, b);
      }
    }

    /** Ends a segment or pass: the pending run goes out, and the last byte of the output is filled up. */
    method FinishPass() returns (ghost pad: nat)
      requires Valid() && CanSend(RunItems(Pending()))
      modifies this`eobrun, this`be, this`done, this`owed, writer, counts
      ensures done == old(done + RunItems(Pending())) && writer.before == old(writer.before) && eobrun == 0 && be == 0
      ensures gather ==> counts.Length == SYMBOLS && forall s :: 0 <= s < SYMBOLS ==> counts[s] == Occurrences(done, s)
      ensures gather ==> writer.Valid()
      ensures !gather ==>
        && pad < 8 && ItemsCovered(table, done) && writer.out == writer.before + Stuff(writer.data)
        && Flat(writer.data) == ItemsBits(table, done) + Padding(pad)
        && writer.putBits == 0 && writer.putBuffer == 0
    {
      hide JustifiedWriter.Valid, CanSend, RunItems, ItemsCovered, ItemsBits, Occurrences, Stuff, Flat;
      Plan(RunItems(Pending()));
      assert owed == RunItems(Pending()) + [];
      var ok := EmitEobrun([]);
      assert done == done + owed;
      pad := 0;
      if !gather {
        pad := writer.FlushBits();
      }
    }

    /** Ends an interval: with a restart marker in an output pass, and with nothing pending in any. */
    method EmitRestart(num: nat) returns (ghost pad: nat, ghost segment: seq<byte>)
      requires Valid() && CanSend(RunItems(Pending())) && num < 8
      modifies this`eobrun, this`be, this`done, this`owed, writer, counts
      ensures Valid() && Pending() == NO_RUN
      ensures gather ==> done == old(done + RunItems(Pending())) && writer.before == old(writer.before)
      ensures !gather ==>
        var ts := old(done + RunItems(Pending()));
        && done == [] && writer.before == old(writer.before) + Stuff(segment) + [0xFF, 0xD0 + num]
        && pad < 8 && ItemsCovered(table, ts) && Flat(segment) == ItemsBits(table, ts) + Padding(pad)
    {
      hide JustifiedWriter.Valid, CanSend, RunItems, ItemsCovered, ItemsBits, Occurrences, Stuff, Flat;
      pad := FinishPass();
      segment := writer.data;
      if !gather {
        writer.EmitMarker(0xD0 + num);
        done := [];
        Nothing();
      }
    }
  }
}
