/** Whole scans through the sequential Huffman coder: restart intervals, the two decoding paths, and the round trip. */
module HuffmanScans {
  import opened Powers
  import opened ByteStream
  import opened BitString
  import opened Coefficients
  import opened RestartIntervals
  import opened HuffmanTokens
  import opened HuffmanReader
  import opened HuffmanEncoder
  import opened HuffmanDecoder

  /** Both paths have the tables that the encoder used. */
  predicate AllShared(scan: Scan, coders: Coders, decoders: Decoders, tables: Tables) {
    forall i :: 0 <= i < |scan.comps| ==>
      && Shared(coders, decoders, tables, DcTable(scan.comps[i].dcTbl))
      && Shared(coders, decoders, tables, AcTable(scan.comps[i].acTbl))
  }

  predicate AllEncode(coders: Coders, scan: Scan, segments: seq<seq<byte>>, intervals: seq<seq<seq<Block>>>) {
    |segments| == |intervals|
    && forall i :: 0 <= i < |segments| ==> Encodes(coders, scan, segments[i], intervals[i])
  }

  lemma NextEncodes(coders: Coders, scan: Scan, segments: seq<seq<byte>>, intervals: seq<seq<seq<Block>>>)
    requires AllEncode(coders, scan, segments, intervals) && segments != []
    ensures |segments| == |intervals| && Encodes(coders, scan, segments[0], intervals[0])
    ensures AllEncode(coders, scan, segments[1..], intervals[1..])
  {
    hide Encodes;
  }

  class ScanDecoder {
    const reader: BitReader
    const decoders: Decoders
    const scan: Scan
    const restartInterval: nat
    var lastDc: seq<int>
    var restartsToGo: int
    var nextRestartNum: nat

    ghost const coders: Coders
    ghost const tables: Tables
    ghost const finalTail: seq<byte>
    ghost const finalFill: nat
    ghost var mcus: seq<seq<Block>>             // what is left of this interval
    ghost var pad: nat
    ghost var intervals: seq<seq<seq<Block>>>   // the intervals after it
    ghost var segments: seq<seq<byte>>
    ghost var marker: nat                       // how many restart markers have been passed

    constructor (reader: BitReader, scan: Scan, decoders: Decoders, restartInterval: nat,
                 ghost coders: Coders, ghost tables: Tables, ghost finalTail: seq<byte>, ghost finalFill: nat,
                 ghost mcus: seq<seq<Block>>, ghost pad: nat,
                 ghost intervals: seq<seq<seq<Block>>>, ghost segments: seq<seq<byte>>)
      ensures fresh(this) && this.reader == reader && this.scan == scan && this.decoders == decoders
      ensures this.restartInterval == restartInterval && this.coders == coders && this.tables == tables
      ensures this.finalTail == finalTail && this.finalFill == finalFill
      ensures this.mcus == mcus && this.pad == pad && this.intervals == intervals && this.segments == segments
      ensures lastDc == NoLast(scan) && restartsToGo == restartInterval && nextRestartNum == marker == 0
    {
      this.reader, this.scan, this.decoders, this.restartInterval := reader, scan, decoders, restartInterval;
      lastDc, restartsToGo, nextRestartNum := seq(|scan.comps|, _ => 0), restartInterval, 0;
      this.coders, this.tables, this.finalTail, this.finalFill := coders, tables, finalTail, finalFill;
      this.mcus, this.pad, this.intervals, this.segments, marker := mcus, pad, intervals, segments, 0;
    }

    ghost predicate InFile()
      reads this`segments, this`marker, reader`tail, reader`fill
    {
      && Terminator(finalTail, finalFill)
      && reader.tail == Following(segments, marker, finalTail)
      && reader.fill == (if segments == [] then finalFill else 1)
    }

    /** What is left of the interval is what the bits ahead say. */
    ghost predicate InSegment()
      reads this`lastDc, this`mcus, this`pad, reader
    {
      && scan.Ok() && |lastDc| == |scan.comps| && McusOk(scan, mcus) && coders.Sized()
      && reader.Valid() && reader.taken <= |reader.data| && !reader.insufficient
      && var ts := IntervalTokens(scan, lastDc, mcus);
      && AllCovered(coders, ts) && pad < 8 && reader.Ahead() == TokensBits(coders, ts) + Padding(pad)
    }

    ghost predicate Counted()
      reads this`restartsToGo, this`nextRestartNum, this`mcus, this`intervals, this`marker
    {
      && nextRestartNum == marker % 8
      && if restartInterval == 0 then intervals == []
         else
           && restartsToGo >= |mcus| && (intervals != [] ==> restartsToGo == |mcus|)
           && FullIntervals(restartInterval, intervals)
    }

    ghost predicate Valid()
      reads this`lastDc, this`restartsToGo, this`nextRestartNum,
            this`mcus, this`pad, this`intervals, this`segments, this`marker, reader
    {
      && InFile() && InSegment() && Counted() && AllShared(scan, coders, decoders, tables)
      && AllEncode(coders, scan, segments, intervals)
    }

    /** What both paths start from: the bits of one MCU's tokens, then some rest. */
    ghost predicate McuNext(mcu: seq<Block>, rest: seq<Bit>)
      reads this`lastDc, reader
    {
      && scan.Ok() && |lastDc| == |scan.comps| && |mcu| == |scan.membership|
      && AllShared(scan, coders, decoders, tables) && coders.Sized()
      && reader.Valid() && reader.taken <= |reader.data|
      && var ts := McuTokens(scan, lastDc, mcu, 0);
      && AllCovered(coders, ts) && reader.Ahead() == TokensBits(coders, ts) + rest
    }

    method DecodeMcuSlow(ghost mcu: seq<Block>, ghost rest: seq<Bit>) returns (out: seq<Block>)
      requires McuNext(mcu, rest)
      modifies this`lastDc, reader`getBuffer, reader`bitsLeft, reader`pos, reader`unreadMarker, reader`taken,
        reader`insufficient
      ensures reader.Valid() && reader.taken <= |reader.data| && reader.Ahead() == rest
      ensures reader.insufficient == old(reader.insufficient)
      ensures out == mcu && lastDc == old(McuLast(scan, lastDc, mcu, 0))
    {
      hide McuTokens, McuLast, TokensBits, AllCovered, BitReader.Valid, BitReader.Ahead;
      ghost var ts := McuTokens(scan, lastDc, mcu, 0);
      var work := new BlockDecoder(reader, decoders, false, coders, tables, ts, rest);
      NoZeros(coders, ts, rest);
      out, lastDc := work.DecodeBlocks(scan, lastDc, mcu, []);
      NoTokens(coders, rest);
    }

    /** The fast path's loop, on a copy of the bit-reading state. */
    method RunFast(ghost mcu: seq<Block>, ghost rest: seq<Bit>)
        returns (copy: BitReader, out: seq<Block>, last: seq<int>)
      requires McuNext(mcu, rest) && reader.unreadMarker == 0
      ensures fresh(copy)
      ensures copy.src == reader.src && copy.data == reader.data && copy.tail == reader.tail && copy.fill == reader.fill
      ensures copy.FastOk() && copy.taken <= |copy.data|
      ensures copy.unreadMarker == 0 ==> copy.Ahead() == rest
      ensures out == mcu && last == McuLast(scan, lastDc, mcu, 0)
      ensures copy.pos <= reader.pos + FAST_BYTES * |scan.membership|
    {
      hide McuTokens, McuLast, TokensBits, AllCovered, BitReader.Valid, BitReader.FastOk, BitReader.Ahead;
      ghost var ts := McuTokens(scan, lastDc, mcu, 0);
      copy := new BitReader.Copy(reader);
      reader.FastIsValid(copy);
      var work := new BlockDecoder(copy, decoders, true, coders, tables, ts, rest);
      NoZeros(coders, ts, rest);
      out, last := work.DecodeBlocks(scan, lastDc, mcu, []);
      NoTokens(coders, rest);
    }

    /**
      The fast path works on copies. It gives up, and leaves everything as it was, when it has met the marker;
      otherwise it does the same as the slow path. It reads at most FAST_BYTES for each block.
    */
    method DecodeMcuFast(ghost mcu: seq<Block>, ghost rest: seq<Bit>) returns (ok: bool, out: seq<Block>)
      requires McuNext(mcu, rest) && reader.unreadMarker == 0
      modifies this`lastDc, reader`getBuffer, reader`bitsLeft, reader`pos, reader`taken
      ensures !ok ==> unchanged(this) && unchanged(reader)
      ensures ok ==> reader.Valid() && reader.taken <= |reader.data| && reader.Ahead() == rest
      ensures ok ==> out == mcu && lastDc == old(McuLast(scan, lastDc, mcu, 0))
      ensures reader.pos <= old(reader.pos) + FAST_BYTES * |scan.membership|
    {
      hide McuTokens, McuLast, TokensBits, AllCovered, BitReader.Valid, BitReader.FastOk, BitReader.Ahead;
      var copy, last;
      copy, out, last := RunFast(mcu, rest);
      ok := copy.unreadMarker == 0;
      if ok {
        reader.getBuffer, reader.bitsLeft, reader.pos := copy.getBuffer, copy.bitsLeft, copy.pos;
        reader.taken := copy.taken;
        lastDc := last;
        reader.FastIsValid(copy);
      }
    }

    /** Passes the restart marker and starts the next interval afresh. */
    method ProcessRestart()
      requires Valid() && mcus == [] && segments != [] && restartInterval != 0
      modifies this, reader
      ensures Valid() && mcus == old(intervals)[0] && intervals == old(intervals)[1..]
    {
      hide InFile, InSegment, Counted, Encodes, AllEncode, FullIntervals, BitReader.Valid, BitReader.Ahead, AllShared,
        Stuff, Terminator, Following, IntervalTokens, TokensBits, AllCovered;
      ghost var next, later, n := segments[0], segments[1..], marker;
      RestartComes();
      NextInFile(segments, n, finalTail, finalFill);
      reader.PassMarker(nextRestartNum, next, Following(later, n + 1, finalTail), if later == [] then finalFill else 1);
      nextRestartNum := (nextRestartNum + 1) % 8;
      lastDc := seq(|scan.comps|, _ => 0);
      restartsToGo := restartInterval;
      if reader.unreadMarker == 0 {
        reader.insufficient := false;
      }
      EnterInterval();
    }

    /** The ghost part of a restart: the next interval becomes the current one. */
    ghost method EnterInterval()
      requires segments != [] && AllEncode(coders, scan, segments, intervals) && AllShared(scan, coders, decoders, tables)
      requires Terminator(finalTail, finalFill) && reader.tail == Following(segments[1..], marker + 1, finalTail)
      requires reader.fill == (if segments[1..] == [] then finalFill else 1)
      requires reader.Valid() && reader.taken <= |reader.data| && !reader.insufficient
      requires reader.Ahead() == Flat(segments[0]) && lastDc == NoLast(scan)
      requires nextRestartNum == (marker + 1) % 8 && restartInterval != 0 && restartsToGo == restartInterval
      requires FullIntervals(restartInterval, intervals)
      modifies this`pad, this`mcus, this`intervals, this`segments, this`marker
      ensures Valid() && |old(intervals)| > 0 && mcus == old(intervals)[0] && intervals == old(intervals)[1..]
    {
      hide InFile, InSegment, Counted, Encodes, AllEncode, FullIntervals, BitReader.Valid, BitReader.Ahead, AllShared,
        Stuff, Terminator, Following, IntervalTokens, TokensBits, AllCovered, Flat;
      NextEncodes(coders, scan, segments, intervals);
      NextInterval(restartInterval, intervals);
      pad := EncodedAs(coders, scan, segments[0], intervals[0]);
      mcus, intervals, segments, marker := intervals[0], intervals[1..], segments[1..], marker + 1;
      IntervalBegins();
    }

    /** At the end of an interval only padding is left: every byte of the segment has been loaded. */
    lemma RestartComes()
      requires Valid() && mcus == [] && segments != []
      ensures reader.Valid() && reader.taken == |reader.data| && !reader.insufficient
      ensures reader.fill == 1 && reader.tail == Following(segments, marker, finalTail)
      ensures Terminator(finalTail, finalFill) && nextRestartNum == marker % 8
      ensures restartInterval != 0 ==> FullIntervals(restartInterval, intervals)
    {
      hide Terminator, Following, AllEncode, FullIntervals, AllShared, Stuff;
      assert |reader.Ahead()| < 8;
    }

    lemma IntervalBegins()
      requires Terminator(finalTail, finalFill) && reader.tail == Following(segments, marker, finalTail)
      requires reader.fill == (if segments == [] then finalFill else 1)
      requires scan.Ok() && McusOk(scan, mcus) && coders.Sized() && lastDc == NoLast(scan)
      requires reader.Valid() && reader.taken <= |reader.data| && !reader.insufficient
      requires var ts := IntervalTokens(scan, NoLast(scan), mcus);
        AllCovered(coders, ts) && pad < 8 && reader.Ahead() == TokensBits(coders, ts) + Padding(pad)
      requires nextRestartNum == marker % 8 && restartInterval != 0 && restartsToGo == restartInterval >= |mcus|
      requires (intervals != [] ==> |mcus| == restartInterval) && FullIntervals(restartInterval, intervals)
      requires AllShared(scan, coders, decoders, tables) && AllEncode(coders, scan, segments, intervals)
      ensures Valid()
    {
      hide BitReader.Valid, BitReader.Ahead, Terminator, Following, AllEncode, FullIntervals, AllShared, TokensBits,
        AllCovered, IntervalTokens;
    }

    /** What is ahead once the next MCU has been read. */
    ghost function AfterNext(): seq<Bit>
      requires InSegment() && mcus != []
      reads this`lastDc, this`mcus, this`pad, reader
    {
      NextTokens(coders, scan, lastDc, mcus);
      TokensBits(coders, IntervalTokens(scan, McuLast(scan, lastDc, mcus[0], 0), mcus[1..])) + Padding(pad)
    }

    lemma NextMcu()
      requires Valid() && mcus != []
      ensures |mcus[0]| == |scan.membership| && McuNext(mcus[0], AfterNext())
    {
      hide BitReader.Valid, BitReader.Ahead, InFile, Counted, AllEncode, AllShared, TokensBits, IntervalTokens,
        McuTokens, AllCovered, McuLast, Padding;
      NextTokens(coders, scan, lastDc, mcus);
      var a, b := McuTokens(scan, lastDc, mcus[0], 0), IntervalTokens(scan, McuLast(scan, lastDc, mcus[0], 0), mcus[1..]);
      assert TokensBits(coders, a) + TokensBits(coders, b) + Padding(pad)
          == TokensBits(coders, a) + (TokensBits(coders, b) + Padding(pad));
    }

    /** At the start of a scan. */
    lemma ScanBegins()
      requires marker == 0 && nextRestartNum == 0 && restartsToGo == restartInterval && lastDc == NoLast(scan)
      requires Terminator(finalTail, finalFill) && reader.tail == Following(segments, 0, finalTail)
      requires reader.fill == (if segments == [] then finalFill else 1)
      requires scan.Ok() && McusOk(scan, mcus) && coders.Sized()
      requires reader.Valid() && reader.taken <= |reader.data| && !reader.insufficient
      requires var ts := IntervalTokens(scan, NoLast(scan), mcus);
        AllCovered(coders, ts) && pad < 8 && reader.Ahead() == TokensBits(coders, ts) + Padding(pad)
      requires AllShared(scan, coders, decoders, tables) && AllEncode(coders, scan, segments, intervals)
      requires if restartInterval == 0 then intervals == []
        else
          && |mcus| <= restartInterval && (intervals != [] ==> |mcus| == restartInterval)
          && FullIntervals(restartInterval, intervals)
      ensures Valid()
    {
      hide BitReader.Valid, BitReader.Ahead, Terminator, Following, AllEncode, FullIntervals, AllShared, TokensBits,
        AllCovered, IntervalTokens, Padding;
    }

    lemma MoreToCome()
      requires Valid()
      ensures |segments| == |intervals|
    {
      hide InFile, InSegment, Counted, AllShared, Encodes;
    }

    /** Decodes one MCU, after a restart if one is due. */
    method DecodeMcu() returns (out: seq<Block>)
      requires Valid() && (mcus != [] || segments != [])
      modifies this, reader
      ensures Valid()
      ensures old(mcus) == [] ==> |old(intervals)| > 0 && |old(intervals)[0]| > 0
      ensures [out] + mcus == if old(mcus) != [] then old(mcus) else old(intervals)[0]
      ensures intervals == if old(mcus) != [] then old(intervals) else old(intervals)[1..]
    {
      hide InFile, InSegment, AllEncode, FullIntervals, BitReader.Valid, BitReader.Ahead, AllShared, AfterNext,
        McuNext, IntervalTokens, TokensBits, AllCovered, Encodes;
      var usefast := true;
      RestartIfDone();
      if restartInterval != 0 {
        if restartsToGo == 0 {
          ProcessRestart();
        }
        usefast := false;
      }
      out := DecodeNext(usefast);
    }

    /** A restart is due exactly at the end of an interval that is not the last. */
    lemma RestartIfDone()
      requires Valid() && (mcus != [] || segments != [])
      ensures restartInterval != 0 ==> (restartsToGo == 0 <==> mcus == [])
      ensures restartInterval == 0 ==> mcus != []
      ensures |segments| == |intervals|
      ensures intervals != [] && restartInterval != 0 ==> |intervals[0]| > 0
    {
      hide InFile, InSegment, AllShared, Encodes;
    }

    method DecodeNext(mayBeFast: bool) returns (out: seq<Block>)
      requires Valid() && mcus != []
      modifies this, reader
      ensures Valid() && [out] + mcus == old(mcus) && intervals == old(intervals)
    {
      hide InFile, AllEncode, FullIntervals, BitReader.Valid, BitReader.Ahead, AllShared, AfterNext, McuNext,
        IntervalTokens, TokensBits, AllCovered, Encodes, McuLast, Padding, McuTokens;
      NextMcu();
      ghost var next, rest := mcus[0], AfterNext();
      WhatFollows();
      out := DecodeEither(mayBeFast, next, rest);
      restartsToGo := restartsToGo - 1;
      mcus := mcus[1..];
      Resume(old(restartsToGo), old(mcus));
    }

    /** Takes the fast path when it may, and the slow one when the fast one gives up. */
    method DecodeEither(mayBeFast: bool, ghost next: seq<Block>, ghost rest: seq<Bit>) returns (out: seq<Block>)
      requires McuNext(next, rest) && !reader.insufficient
      modifies this`lastDc, reader`getBuffer, reader`bitsLeft, reader`pos, reader`unreadMarker, reader`taken,
        reader`insufficient
      ensures reader.Valid() && reader.taken <= |reader.data| && reader.Ahead() == rest && !reader.insufficient
      ensures out == next && |old(lastDc)| == |scan.comps| && |next| == |scan.membership|
      ensures lastDc == old(McuLast(scan, lastDc, next, 0))
    {
      hide BitReader.Valid, BitReader.Ahead, AllShared, TokensBits, AllCovered, McuLast, McuTokens;
      var usefast := mayBeFast;
      if |reader.src| - reader.pos < FAST_BYTES * |scan.membership| || reader.unreadMarker != 0 {
        usefast := false;
      }
      out := [];
      if !reader.insufficient {
        var done := false;
        if usefast {
          done, out := DecodeMcuFast(next, rest);
        }
        if !done {
          out := DecodeMcuSlow(next, rest);
        }
      }
    }

    /** The bits after the next MCU are those of the ones after it. */
    lemma WhatFollows()
      requires Valid() && mcus != []
      ensures |lastDc| == |scan.comps| && McusOk(scan, mcus) && scan.Ok() && coders.Sized() && pad < 8
      ensures !reader.insufficient
      ensures var ts := IntervalTokens(scan, McuLast(scan, lastDc, mcus[0], 0), mcus[1..]);
        AllCovered(coders, ts) && AfterNext() == TokensBits(coders, ts) + Padding(pad)
    {
      hide BitReader.Valid, BitReader.Ahead, InFile, Counted, AllEncode, AllShared, TokensBits, IntervalTokens,
        McuTokens, AllCovered, McuLast, Padding;
      NextTokens(coders, scan, lastDc, mcus);
    }

    lemma Resume(togo: int, was: seq<seq<Block>>)
      requires InFile() && AllShared(scan, coders, decoders, tables) && AllEncode(coders, scan, segments, intervals)
      requires scan.Ok() && |lastDc| == |scan.comps| && McusOk(scan, mcus) && coders.Sized()
      requires reader.Valid() && reader.taken <= |reader.data| && !reader.insufficient
      requires var ts := IntervalTokens(scan, lastDc, mcus);
        AllCovered(coders, ts) && pad < 8 && reader.Ahead() == TokensBits(coders, ts) + Padding(pad)
      requires |was| > 0 && mcus == was[1..] && restartsToGo == togo - 1 && nextRestartNum == marker % 8
      requires if restartInterval == 0 then intervals == []
        else
          && togo >= |was| && (intervals != [] ==> togo == |was|)
          && FullIntervals(restartInterval, intervals)
      ensures Valid()
    {
      hide InFile, AllEncode, FullIntervals, BitReader.Valid, BitReader.Ahead, AllShared, IntervalTokens, TokensBits,
        AllCovered, Padding;
    }
  }

  lemma CoveredParts(coders: Coders, a: seq<Token>, b: seq<Token>)
    requires coders.Sized() && AllCovered(coders, a + b)
    ensures AllCovered(coders, a) && AllCovered(coders, b)
  {
    hide TokenCovered;
    assert forall i :: 0 <= i < |a| ==> (a + b)[i] == a[i];
    assert forall i :: 0 <= i < |b| ==> (a + b)[|a| + i] == b[i];
  }

  lemma NextTokens(coders: Coders, scan: Scan, last: seq<int>, mcus: seq<seq<Block>>)
    requires coders.Sized() && scan.Ok() && |last| == |scan.comps| && McusOk(scan, mcus) && mcus != []
    requires AllCovered(coders, IntervalTokens(scan, last, mcus))
    ensures |mcus[0]| == |scan.membership| && McusOk(scan, mcus[1..])
    ensures var a, b := McuTokens(scan, last, mcus[0], 0),
      IntervalTokens(scan, McuLast(scan, last, mcus[0], 0), mcus[1..]);
      && AllCovered(coders, a) && AllCovered(coders, b)
      && TokensBits(coders, IntervalTokens(scan, last, mcus)) == TokensBits(coders, a) + TokensBits(coders, b)
  {
    hide McuTokens, McuLast, TokensBits, AllCovered;
    var a, b := McuTokens(scan, last, mcus[0], 0), IntervalTokens(scan, McuLast(scan, last, mcus[0], 0), mcus[1..]);
    CoveredParts(coders, a, b);
    TokensBitsAppend(coders, a, b);
  }

  lemma EncodedAs(coders: Coders, scan: Scan, data: seq<byte>, mcus: seq<seq<Block>>) returns (pad: nat)
    requires Encodes(coders, scan, data, mcus)
    ensures coders.Sized() && scan.Ok() && McusOk(scan, mcus)
    ensures var ts := IntervalTokens(scan, NoLast(scan), mcus);
      AllCovered(coders, ts) && pad < 8 && Flat(data) == TokensBits(coders, ts) + Padding(pad)
  {
    hide IntervalTokens, TokensBits, AllCovered, Flat;
    pad :| pad < 8 && Flat(data) == TokensBits(coders, IntervalTokens(scan, NoLast(scan), mcus)) + Padding(pad);
  }

  lemma NoZeros(coders: Coders, ts: seq<Token>, rest: seq<Bit>)
    requires coders.Sized() && AllCovered(coders, ts)
    ensures ts == ts + [] && TokensBits(coders, ts) + rest == [] + (TokensBits(coders, ts) + (rest + Zeros(0)))
  {
    hide TokensBits;
  }

  lemma NoTokens(coders: Coders, rest: seq<Bit>)
    requires coders.Sized()
    ensures AllCovered(coders, []) && [] + (TokensBits(coders, []) + (rest + Zeros(0))) == rest
  {
  }

  // ---- whole scans ----

  /** The segments and intervals of a scan, as the encoder leaves them. */
  predicate Encoded(scan: Scan, coders: Coders, restartInterval: nat,
                    intervals: seq<seq<seq<Block>>>, segments: seq<seq<byte>>) {
    && |segments| == |intervals| > 0 && AllEncode(coders, scan, segments, intervals)
    && (restartInterval == 0 ==> |intervals| == 1)
    && (restartInterval != 0 ==> |intervals| == 1 || FullIntervals(restartInterval, intervals))
    && (restartInterval != 0 ==> |intervals[0]| <= restartInterval)
  }

  /** All MCUs of a scan through the encoder. */
  method EncodeScan(scan: Scan, coders: Coders, restartInterval: nat, mcus: seq<seq<Block>>)
      returns (bytes: seq<byte>, ghost intervals: seq<seq<seq<Block>>>, ghost segments: seq<seq<byte>>)
    requires scan.Ok() && coders.Sized() && McusOk(scan, mcus)
    requires AllCovered(coders, RunTokens(scan, restartInterval, NoLast(scan), restartInterval, mcus))
    ensures Encoded(scan, coders, restartInterval, intervals, segments) && Joined(intervals) == mcus
    ensures |segments| > 0 && bytes == WithMarkers(segments[..|segments| - 1]) + Stuff(segments[|segments| - 1])
  {
    hide ScanEncoder.Valid, RunTokens, AllCovered, Encodes, WithMarkers, Stuff, McuTokens, McuLast, Joined, RunLast,
      RunTogo;
    var enc := new ScanEncoder(scan, coders, restartInterval);
    assert mcus[0..] == mcus;
    JoinedNone<seq<Block>>();
    for i := 0 to |mcus|
      invariant fresh(enc) && fresh(enc.blocks) && fresh(enc.blocks.writer)
      invariant enc.scan == scan && enc.blocks.coders == coders && enc.restartInterval == restartInterval
      invariant enc.Valid() && enc.Counted() && |enc.lastDc| == |scan.comps|
      invariant Joined(enc.intervals) + enc.current == mcus[..i]
      invariant if i > 0 then enc.current != [] else enc.intervals == []
      invariant AllCovered(coders, RunTokens(scan, restartInterval, enc.lastDc, enc.restartsToGo, mcus[i..]))
    {
      ghost var from := RunLast(scan, restartInterval, enc.lastDc, enc.restartsToGo);
      RunTokensStep(scan, restartInterval, enc.lastDc, enc.restartsToGo, mcus, i);
      CoveredParts(coders, McuTokens(scan, from, mcus[i], 0),
                   RunTokens(scan, restartInterval, McuLast(scan, from, mcus[i], 0),
                             RunTogo(restartInterval, enc.restartsToGo), mcus[i + 1..]));
      JoinedSnoc(enc.intervals, enc.current);
      enc.EncodeMcu(mcus[i]);
    }
    enc.Settled();
    ghost var data := enc.FinishPass();
    bytes := enc.blocks.writer.out;
    intervals, segments := enc.intervals + [enc.current], enc.segments + [data];
    JoinedSnoc(enc.intervals, enc.current);
  }

  /** Starts decoding a scan at the beginning of its file. */
  method OpenScan(src: seq<byte>, scan: Scan, decoders: Decoders, restartInterval: nat,
                  ghost coders: Coders, ghost tables: Tables, ghost tail: seq<byte>, ghost fill: nat,
                  ghost intervals: seq<seq<seq<Block>>>, ghost segments: seq<seq<byte>>)
      returns (dec: ScanDecoder)
    requires scan.Ok() && AllShared(scan, coders, decoders, tables)
    requires Encoded(scan, coders, restartInterval, intervals, segments)
    requires Terminator(tail, fill)
    requires src == WithMarkers(segments[..|segments| - 1]) + Stuff(segments[|segments| - 1]) + tail
    ensures fresh(dec) && fresh(dec.reader) && dec.Valid() && |intervals| > 0
    ensures dec.mcus == intervals[0] && dec.intervals == intervals[1..]
  {
    hide ScanDecoder.Valid, BitReader.Valid, BitReader.Ahead, AllShared, Encodes, Terminator, Following, Stuff,
      WithMarkers, IntervalTokens, TokensBits, AllCovered, Flat, FullIntervals, AllEncode;
    ghost var files := segments[1..];
    ghost var following := Following(files, 0, tail);
    FileLayout(segments, |segments| - 1, tail);
    NothingFollows(segments, |segments| - 1, tail);
    assert src == Stuff(segments[0]) + following;
    FollowingEnds(files, 0, tail, fill);
    var reader := new BitReader(src, segments[0], following, if files == [] then fill else 1);
    NextEncodes(coders, scan, segments, intervals);
    ghost var pad := EncodedAs(coders, scan, segments[0], intervals[0]);
    dec := new ScanDecoder(reader, scan, decoders, restartInterval, coders, tables, tail, fill,
                           intervals[0], pad, intervals[1..], files);
    FirstInterval(restartInterval, intervals);
    dec.ScanBegins();
  }

  /** Decodes the MCUs that are left of a scan. */
  method DecodeAll(dec: ScanDecoder, count: nat) returns (out: seq<seq<Block>>)
    requires dec.Valid() && |dec.mcus + Joined(dec.intervals)| == count
    modifies dec, dec.reader
    ensures out == old(dec.mcus + Joined(dec.intervals))
  {
    hide ScanDecoder.Valid, Joined;
    out := [];
    JoinedNone<seq<Block>>();
    for i := 0 to count
      invariant dec.Valid() && |out| == i
      invariant out + (dec.mcus + Joined(dec.intervals)) == old(dec.mcus + Joined(dec.intervals))
    {
      dec.MoreToCome();
      ghost var before, later := dec.mcus, dec.intervals;
      if later != [] {
        JoinedFirst(later);
      }
      var mcu := dec.DecodeMcu();
      assert [mcu] + (dec.mcus + Joined(dec.intervals)) == before + Joined(later);
      out := out + [mcu];
    }
  }

  /** Decodes count MCUs from the file of a scan. */
  method DecodeScan(src: seq<byte>, scan: Scan, decoders: Decoders, restartInterval: nat, count: nat,
                    ghost coders: Coders, ghost tables: Tables, ghost tail: seq<byte>, ghost fill: nat,
                    ghost intervals: seq<seq<seq<Block>>>, ghost segments: seq<seq<byte>>)
      returns (out: seq<seq<Block>>)
    requires scan.Ok() && AllShared(scan, coders, decoders, tables)
    requires Encoded(scan, coders, restartInterval, intervals, segments)
    requires Terminator(tail, fill)
    requires src == WithMarkers(segments[..|segments| - 1]) + Stuff(segments[|segments| - 1]) + tail
    requires |Joined(intervals)| == count
    ensures out == Joined(intervals)
  {
    hide ScanDecoder.Valid, AllShared, Encoded, Terminator, Stuff, WithMarkers, Joined;
    var dec := OpenScan(src, scan, decoders, restartInterval, coders, tables, tail, fill, intervals, segments);
    JoinedFirst(intervals);
    out := DecodeAll(dec, count);
  }

  /**
    For any MCUs whose symbols all have codes: what is decoded is what was encoded, whatever the restart interval, by
    whichever path each MCU is decoded.
  */
  method HuffmanRoundTrip(scan: Scan, coders: Coders, decoders: Decoders, ghost tables: Tables, restartInterval: nat,
                          mcus: seq<seq<Block>>, marker: byte)
      returns (out: seq<seq<Block>>)
    requires scan.Ok() && coders.Sized() && McusOk(scan, mcus) && AllShared(scan, coders, decoders, tables)
    requires AllCovered(coders, RunTokens(scan, restartInterval, NoLast(scan), restartInterval, mcus))
    requires 0 < marker < 0xFF
    ensures out == mcus
  {
    hide AllShared, AllCovered, RunTokens, Encoded, WithMarkers, Stuff, Joined;
    var bytes, intervals, segments := EncodeScan(scan, coders, restartInterval, mcus);
    var tail: seq<byte> := [0xFF, marker];
    out := DecodeScan(bytes + tail, scan, decoders, restartInterval, |mcus|, coders, tables, tail, 1, intervals,
      segments);
  }
}
