/** Sequential Huffman encoding of MCUs: encode_one_block and encode_mcu_huff of jchuff.c. */
module HuffmanEncoder {
  import opened Powers
  import opened ByteStream
  import opened BitString
  import opened Coefficients
  import opened RestartIntervals
  import opened HuffmanTokens
  import opened HuffmanWriter

  class BlockEncoder {
    const writer: BitWriter
    const coders: Coders

    ghost var plan: seq<Bit>        // the bits written, and those of the tokens still owed
    ghost var owed: seq<Token>

    ghost predicate Planned()
      reads this`plan, this`owed, writer
    {
      && coders.Sized() && writer.Valid() && AllCovered(coders, owed)
      && writer.bits + TokensBits(coders, owed) == plan
    }

    constructor (writer: BitWriter, coders: Coders)
      ensures fresh(this) && this.writer == writer && this.coders == coders
    {
      this.writer, this.coders := writer, coders;
    }

    lemma TokenHead(t: Token, more: seq<Token>, was: seq<Bit>)
      requires coders.Sized() && AllCovered(coders, [t] + more)
      ensures TokenCovered(coders, t) && AllCovered(coders, more)
      ensures was + TokensBits(coders, [t] + more)
        == was + SymbolBits(coders.Get(t.table), t.symbol) + BitsOf(t.extra, t.size) + TokensBits(coders, more)
    {
      hide SymbolBits, TokenCovered, BitsOf;
      var all := [t] + more;
      assert all[0] == t && all[1..] == more;
      assert forall i :: 0 <= i < |more| ==> more[i] == all[i + 1];
    }

    /** Owes some more tokens. */
    ghost method Plan(ts: seq<Token>)
      requires coders.Sized() && writer.Valid() && AllCovered(coders, ts)
      modifies this
      ensures Planned() && owed == ts + [] && plan == writer.bits + TokensBits(coders, ts)
    {
      owed := ts + [];
      assert owed == ts;
      plan := writer.bits + TokensBits(coders, owed);
    }

    lemma PlanDone()
      requires Planned() && owed == []
      ensures writer.Valid() && writer.bits == plan
    {
    }

    /** Emits the code of the next token's symbol, then the bits that complete its value. */
    method Emit(table: TableId, symbol: nat, extra: nat, size: nat, ghost more: seq<Token>)
      requires Planned() && owed == [Token(table, symbol, extra, size)] + more
      modifies this`owed, writer
      ensures Planned() && owed == more && plan == old(plan) && writer.before == old(writer.before)
    {
      hide BitWriter.Valid, AllCovered, BitsOf, TokensBits, Pow2;
      TokenHead(Token(table, symbol, extra, size), more, writer.bits);
      var e := coders.Get(table);
      writer.EmitBits(e.ehufco[symbol], e.ehufsi[symbol]);
      writer.EmitBits(extra, size);
      owed := more;
    }

    /** Encodes the blocks' tokens: first the DC difference, then each run of zeros with the value that ends it. */
    method EncodeOneBlock(b: Block, lastDc: int, c: Component, ghost more: seq<Token>)
      requires Planned() && owed == BlockTokens(c, lastDc, b) + more
      modifies this`owed, writer
      ensures Planned() && owed == more && plan == old(plan) && writer.before == old(writer.before)
    {
      hide Planned, AcTokens, BitLength, Pow2, Extra, At;
      ghost var z := InZigzag(b);
      var diff := b[0] - lastDc;
      var nbits := BitLength(Abs(diff));
      ExtraMask(diff);
      Emit(DcTable(c.dcTbl), nbits, (if diff < 0 then diff - 1 else diff) % Pow2(nbits), nbits,
           AcTokens(c.acTbl, z, 1, 0) + more);
      var r := 0;
      for k := 1 to 64
        invariant Planned() && owed == AcTokens(c.acTbl, z, k, r) + more
        invariant plan == old(plan) && writer.before == old(writer.before)
      {
        r := EncodeCoefficient(At(b, k), k, r, c.acTbl, z, more);
      }
      AcTokensStep(c.acTbl, z, 64, r, more);
      if r > 0 {
        Emit(AcTable(c.acTbl), 0, 0, 0, more);
      }
    }

    /** One step of the coefficient loop: lengthens the run of zeros, or emits it with the value that ends it. */
    method EncodeCoefficient(temp: Coef, k: nat, r0: nat, tbl: nat, ghost z: Zz, ghost more: seq<Token>) returns (r: nat)
      requires 1 <= k < 64 && z[k] == temp
      requires Planned() && owed == AcTokens(tbl, z, k, r0) + more
      modifies this`owed, writer
      ensures Planned() && owed == AcTokens(tbl, z, k + 1, r) + more
      ensures plan == old(plan) && writer.before == old(writer.before)
    {
      hide Planned, AcTokens, BitLength, Pow2, Extra;
      r := r0;
      AcTokensStep(tbl, z, k, r, more);
      if temp == 0 {
        r := r + 1;
      } else {
        var nbits := BitLength(Abs(temp));
        while r > 15
          invariant Planned() && owed == AcTokens(tbl, z, k, r) + more
          invariant plan == old(plan) && writer.before == old(writer.before)
        {
          AcTokensStep(tbl, z, k, r, more);
          Emit(AcTable(tbl), 0xF0, 0, 0, AcTokens(tbl, z, k, r - 16) + more);
          r := r - 16;
        }
        AcTokensStep(tbl, z, k, r, more);
        ExtraMask(temp);
        Emit(AcTable(tbl), 16 * r + nbits, (if temp < 0 then temp - 1 else temp) % Pow2(nbits), nbits,
             AcTokens(tbl, z, k + 1, 0) + more);
        r := 0;
      }
    }
  }

  /** The encoder of one scan, with its restart counters. */
  class ScanEncoder {
    const blocks: BlockEncoder
    const scan: Scan
    const restartInterval: nat
    var lastDc: seq<int>            // last DC value of each component
    var restartsToGo: nat           // MCUs left in this restart interval
    var nextRestartNum: nat         // number of the next restart marker, 0..7

    ghost var intervals: seq<seq<seq<Block>>>   // the MCUs of the finished intervals
    ghost var segments: seq<seq<byte>>          // and the bytes of their segments
    ghost var current: seq<seq<Block>>          // the MCUs of this interval

    ghost predicate Valid()
      reads this`lastDc, this`intervals, this`segments, this`current, blocks.writer
    {
      && scan.Ok() && blocks.coders.Sized() && blocks.writer.Valid()
      && McusOk(scan, current)
      && var ts := IntervalTokens(scan, NoLast(scan), current);
      && AllCovered(blocks.coders, ts) && blocks.writer.bits == TokensBits(blocks.coders, ts)
      && lastDc == IntervalLast(scan, NoLast(scan), current)
      && blocks.writer.before == WithMarkers(segments)
      && |segments| == |intervals|
      && (forall i :: 0 <= i < |segments| ==> Encodes(blocks.coders, scan, segments[i], intervals[i]))
    }

    ghost predicate Counted()
      reads this
    {
      && nextRestartNum == |intervals| % 8
      && (if restartInterval == 0 then intervals == []
          else
            && |current| + restartsToGo == restartInterval
            && forall i :: 0 <= i < |intervals| ==> |intervals[i]| == restartInterval)
      && (restartInterval == 0 ==> restartsToGo == 0)
    }

    constructor (scan: Scan, coders: Coders, restartInterval: nat)
      requires scan.Ok() && coders.Sized()
      ensures Valid() && Counted() && fresh(this) && fresh(blocks) && fresh(blocks.writer)
      ensures blocks.coders == coders && this.scan == scan && this.restartInterval == restartInterval
      ensures intervals == [] && current == [] && lastDc == NoLast(scan) && restartsToGo == restartInterval
    {
      var writer := new BitWriter();
      blocks := new BlockEncoder(writer, coders);
      this.scan, this.restartInterval := scan, restartInterval;
      lastDc := seq(|scan.comps|, _ => 0);
      restartsToGo, nextRestartNum := restartInterval, 0;
      intervals, segments, current := [], [], [];
    }

    lemma Settled()
      requires Valid()
      ensures |lastDc| == |scan.comps| && |segments| == |intervals|
      ensures forall i :: 0 <= i < |segments| ==> Encodes(blocks.coders, scan, segments[i], intervals[i])
    {
      hide Encodes, IntervalTokens, TokensBits, AllCovered, WithMarkers, Stuff;
    }

    /** Whether the next MCU starts a new interval. */
    predicate RestartDue()
      reads this
    {
      restartInterval != 0 && restartsToGo == 0
    }

    /** Ends the interval with a restart marker and resets the predictions. */
    method EmitRestart()
      requires Valid() && Counted() && RestartDue()
      modifies this`lastDc, this`intervals, this`segments, this`current, blocks.writer
      ensures Valid()
      ensures intervals == old(intervals) + [old(current)] && current == [] && lastDc == NoLast(scan)
    {
      hide IntervalTokens, IntervalLast, Encodes, TokensBits, AllCovered, Stuff, WithMarkers;
      ghost var pad := blocks.writer.FlushBits();
      ghost var data := blocks.writer.data;
      EncodesWith(blocks.coders, scan, data, current, pad);
      MarkersSnoc(segments, data);
      blocks.writer.EmitMarker(0xD0 + nextRestartNum);
      lastDc := seq(|scan.comps|, _ => 0);
      intervals, segments, current := intervals + [current], segments + [data], [];
      IntervalEmpty(scan, blocks.coders);
    }

    /** Encodes one MCU, after a restart marker if one is due. */
    method EncodeMcu(mcu: seq<Block>)
      requires Valid() && Counted() && |mcu| == |scan.membership|
      requires |lastDc| == |scan.comps|
      requires AllCovered(blocks.coders, McuTokens(scan, RunLast(scan, restartInterval, lastDc, restartsToGo), mcu, 0))
      modifies this, blocks, blocks.writer
      ensures Valid() && Counted()
      ensures lastDc == old(McuLast(scan, RunLast(scan, restartInterval, lastDc, restartsToGo), mcu, 0))
      ensures restartsToGo == RunTogo(restartInterval, old(restartsToGo))
      ensures if old(RestartDue()) then intervals == old(intervals) + [old(current)] && current == [mcu]
        else intervals == old(intervals) && current == old(current) + [mcu]
    {
      hide Valid, McuTokens, McuLast, AllCovered;
      if restartInterval != 0 {
        if restartsToGo == 0 {
          EmitRestart();
        }
      }
      EncodeBlocks(mcu);
      if restartInterval != 0 {
        if restartsToGo == 0 {
          restartsToGo := restartInterval;
          nextRestartNum := (nextRestartNum + 1) % 8;
        }
        restartsToGo := restartsToGo - 1;
      }
    }

    /** Encodes the blocks of one MCU. */
    method EncodeBlocks(mcu: seq<Block>)
      requires Valid() && |mcu| == |scan.membership|
      requires |lastDc| == |scan.comps| && AllCovered(blocks.coders, McuTokens(scan, lastDc, mcu, 0))
      modifies this`lastDc, this`current, blocks, blocks.writer
      ensures Valid() && current == old(current) + [mcu] && lastDc == old(McuLast(scan, lastDc, mcu, 0))
    {
      hide IntervalTokens, IntervalLast, Encodes, TokensBits, AllCovered, Stuff, WithMarkers, McuTokens, McuLast,
        BlockEncoder.Planned, BlockTokens;
      ghost var s0, none := lastDc, NoLast(scan);
      ghost var ts, us := IntervalTokens(scan, none, current), McuTokens(scan, lastDc, mcu, 0);
      IntervalSnoc(scan, none, current, mcu);
      TokensBitsAppend(blocks.coders, ts, us);
      blocks.Plan(us);
      for blkn := 0 to |mcu|
        invariant |lastDc| == |scan.comps| && blocks.Planned() && blocks.plan == TokensBits(blocks.coders, ts + us)
        invariant blocks.writer.before == old(blocks.writer.before) && current == old(current)
        invariant blocks.owed == McuTokens(scan, lastDc, mcu, blkn) + []
        invariant McuLast(scan, lastDc, mcu, blkn) == McuLast(scan, s0, mcu, 0)
      {
        var ci := scan.membership[blkn];
        McuTokensStep(scan, lastDc, mcu, blkn, []);
        blocks.EncodeOneBlock(mcu[blkn], lastDc[ci], scan.comps[ci],
                              McuTokens(scan, lastDc[ci := mcu[blkn][0]], mcu, blkn + 1) + []);
        lastDc := lastDc[ci := mcu[blkn][0]];
      }
      McuTokensStep(scan, lastDc, mcu, |mcu|, []);
      blocks.PlanDone();
      current := current + [mcu];
    }

    /** Flushes the last segment at the end of the scan. */
    method FinishPass() returns (ghost data: seq<byte>)
      requires Valid()
      modifies blocks.writer
      ensures blocks.writer.out == WithMarkers(segments) + Stuff(data)
      ensures Encodes(blocks.coders, scan, data, current)
    {
      hide IntervalTokens, IntervalLast, Encodes, TokensBits, AllCovered, Stuff, WithMarkers;
      ghost var pad := blocks.writer.FlushBits();
      data := blocks.writer.data;
      EncodesWith(blocks.coders, scan, data, current, pad);
    }
  }

  lemma EncodesWith(coders: Coders, scan: Scan, data: seq<byte>, mcus: seq<seq<Block>>, pad: nat)
    requires coders.Sized() && scan.Ok() && McusOk(scan, mcus)
    requires var ts := IntervalTokens(scan, NoLast(scan), mcus);
      AllCovered(coders, ts) && pad < 8 && Flat(data) == TokensBits(coders, ts) + seq(pad, _ => 1)
    ensures Encodes(coders, scan, data, mcus)
  {
    hide IntervalTokens, TokensBits, AllCovered, Flat;
    assert Padding(pad) == seq(pad, _ => 1);
  }

  lemma IntervalEmpty(scan: Scan, coders: Coders)
    requires scan.Ok() && coders.Sized()
    ensures IntervalTokens(scan, NoLast(scan), []) == [] && IntervalLast(scan, NoLast(scan), []) == NoLast(scan)
    ensures AllCovered(coders, []) && TokensBits(coders, []) == []
  {
  }
}
