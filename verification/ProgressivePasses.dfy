/**
  Progressive AC scans with Huffman codes in restart intervals: a statistics pass, an output pass with the table made
  from it, and the decoder that brings every block to the level of the scan.
*/
module ProgressivePasses {
  import opened Powers
  import opened ByteStream
  import opened BitString
  import opened RestartIntervals
  import opened Coefficients
  import opened SuccessiveApproximation
  import HuffmanForest
  import opened HuffmanCode
  import opened HuffmanTables
  import opened OptimalTable
  import opened HuffmanTokens
  import opened HuffmanReader
  import opened EobRuns
  import opened RunsAhead
  import opened ProgressiveEncoder
  import opened ProgressiveDecoder
  import opened ProgressiveScans

  /** The bytes of a segment hold the items of an interval, filled up with ones. */
  predicate Writes(table: EncoderTable, band: Band, al: nat, data: seq<byte>, blocks: seq<Block>)
    requires band.Ok()
  {
    var ts := band.SentScan(AllScaled(blocks, al), NO_RUN);
    && ItemsCovered(table, ts)
    && exists pad: nat :: pad < 8 && Flat(data) == ItemsBits(table, ts) + Padding(pad)
  }

  predicate AllWrite(table: EncoderTable, band: Band, al: nat, segments: seq<seq<byte>>, intervals: seq<seq<Block>>)
    requires band.Ok()
  {
    |segments| == |intervals|
    && forall i :: 0 <= i < |segments| ==> Writes(table, band, al, segments[i], intervals[i])
  }

  lemma WritesWith(table: EncoderTable, band: Band, al: nat, data: seq<byte>, blocks: seq<Block>, pad: nat)
    requires band.Ok() && pad < 8
    requires var ts := band.SentScan(AllScaled(blocks, al), NO_RUN);
      ItemsCovered(table, ts) && Flat(data) == ItemsBits(table, ts) + Padding(pad)
    ensures Writes(table, band, al, data, blocks)
  {
    hide Band.SentScan, AllScaled, ItemsCovered, ItemsBits, Flat;
  }

  lemma WritesSnoc(table: EncoderTable, band: Band, al: nat, segments: seq<seq<byte>>, intervals: seq<seq<Block>>,
                   data: seq<byte>, blocks: seq<Block>)
    requires band.Ok() && AllWrite(table, band, al, segments, intervals) && Writes(table, band, al, data, blocks)
    ensures AllWrite(table, band, al, segments + [data], intervals + [blocks])
  {
    hide Writes;
  }

  lemma WritesNext(table: EncoderTable, band: Band, al: nat, segments: seq<seq<byte>>, intervals: seq<seq<Block>>)
    requires band.Ok() && AllWrite(table, band, al, segments, intervals) && segments != []
    ensures |segments| == |intervals| && Writes(table, band, al, segments[0], intervals[0])
    ensures AllWrite(table, band, al, segments[1..], intervals[1..])
  {
    hide Writes;
  }

  // ---- encoding ----

  /** The arrays of counts have places for all symbols, or the table has codes for them. */
  predicate Sendable(gather: bool, table: EncoderTable, ts: seq<Item>) {
    if gather then forall i :: 0 <= i < |ts| && ts[i].Symbol? ==> ts[i].s < HuffmanForest.SYMBOLS
    else ItemsCovered(table, ts)
  }

  /** The items of one interval are among those of all. */
  lemma {:induction false} PartSendable(e: BandEncoder, intervals: seq<seq<Block>>, i: nat)
    requires e.band.Ok() && i < |intervals| && Sendable(e.gather, e.table, IntervalItems(e.band, e.al, intervals))
    ensures e.CanSend(e.band.SentScan(AllScaled(intervals[i], e.al), NO_RUN))
  {
    hide ItemsCovered, Band.SentScan, AllScaled;
    var n := |intervals| - 1;
    e.SendParts(IntervalItems(e.band, e.al, intervals[..n]), e.band.SentScan(AllScaled(intervals[n], e.al), NO_RUN));
    if i < n {
      PartSendable(e, intervals[..n], i);
    }
  }

  class ScanEncoder {
    const e: BandEncoder
    const restartInterval: nat
    var restartsToGo: nat       // blocks left in this restart interval
    var nextRestartNum: nat     // number of the next restart marker, 0..7

    ghost var past: seq<seq<Block>>         // the finished intervals
    ghost var segments: seq<seq<byte>>      // and the bytes of their segments, in an output pass
    ghost var current: seq<Block>           // this interval
    ghost var left: seq<Block>              // what is left of it
    ghost var later: seq<seq<Block>>        // the intervals after it

    ghost predicate CanSendAll(intervals: seq<seq<Block>>)
      requires e.band.Ok()
    {
      forall i :: 0 <= i < |intervals| ==> e.CanSend(e.band.SentScan(AllScaled(intervals[i], e.al), NO_RUN))
    }

    /** What this interval adds to: counts go on through all intervals, bits do not. */
    ghost function Base(): seq<Item>
      requires e.band.Ok()
      reads this`past
    {
      if e.gather then IntervalItems(e.band, e.al, past) else []
    }

    /** What has been sent, and what is left, make up the items of the interval. */
    ghost predicate Sending()
      reads this`past, this`current, this`left, e`eobrun, e`be, e`done, e.writer, e.counts, e.bitBuffer
    {
      && e.Valid()
      && var owed := e.band.SentScan(AllScaled(left, e.al), e.Pending());
      && e.done + owed == Base() + e.band.SentScan(AllScaled(current, e.al), NO_RUN)
      && e.CanSend(owed)
    }

    ghost predicate InFile()
      reads this`past, this`segments, e.writer
    {
      && e.band.Ok() && |segments| == |past|
      && (e.gather || e.writer.before == WithMarkers(segments))
      && (e.gather || AllWrite(e.table, e.band, e.al, segments, past))
    }

    ghost predicate Counted()
      reads this`restartsToGo, this`nextRestartNum, this`past, this`left, this`later
    {
      && nextRestartNum == |past| % 8
      && if restartInterval == 0 then later == []
         else
           && |left| <= restartsToGo && (later != [] ==> restartsToGo == |left|)
           && FullIntervals(restartInterval, later)
    }

    ghost predicate Valid()
      reads this, e`eobrun, e`be, e`done, e.writer, e.counts, e.bitBuffer
    {
      Sending() && InFile() && Counted() && CanSendAll(later)
    }

    /** All intervals of the scan. */
    ghost function All(): seq<seq<Block>>
      reads this`past, this`current, this`later
    {
      past + [current] + later
    }

    /** The blocks still to come. */
    ghost function Rest(): seq<Block>
      reads this`left, this`later
    {
      left + Joined(later)
    }

    constructor (band: Band, al: nat, gather: bool, table: EncoderTable, restartInterval: nat, ghost blocks: seq<Block>)
      requires band.Ok()
      requires Sendable(gather, table, IntervalItems(band, al, Cut(restartInterval, blocks)))
      ensures Valid() && fresh(this) && fresh(e) && fresh(e.writer) && fresh(e.counts) && fresh(e.bitBuffer)
      ensures e.band == band && e.al == al && e.gather == gather && e.table == table
      ensures All() == Cut(restartInterval, blocks) && Rest() == blocks
    {
      hide BandEncoder.Sent, BandEncoder.CanSend, Band.SentScan, AllScaled, IntervalItems, ItemsCovered, WithMarkers,
        FullIntervals, Joined, Cut;
      e := new BandEncoder(band, al, gather, table);
      this.restartInterval, restartsToGo, nextRestartNum := restartInterval, restartInterval, 0;
      ghost var all := Cut(restartInterval, blocks);
      past, segments, current, left, later := [], [], all[0], all[0], all[1..];
      new;
      CutShape(restartInterval, blocks);
      JoinedFirst(all);
      forall i | 0 <= i < |all|
        ensures e.CanSend(band.SentScan(AllScaled(all[i], al), NO_RUN))
      {
        PartSendable(e, all, i);
      }
      NothingBefore(band, al);
      assert [] + [all[0]] + all[1..] == all;
    }

    lemma NothingBefore(band: Band, al: nat)
      requires band.Ok()
      ensures IntervalItems(band, al, []) == [] && WithMarkers([]) == [] && RunOk(NO_RUN)
    {
    }

    /** At the end of an interval only its pending run is left to be sent. */
    lemma IntervalEnds()
      requires Sending() && left == []
      ensures e.Valid() && e.CanSend(RunItems(e.Pending()))
      ensures e.done + RunItems(e.Pending()) == Base() + e.band.SentScan(AllScaled(current, e.al), NO_RUN)
    {
      hide BandEncoder.Sent, BandEncoder.CanSend, RunItems, IntervalItems, RunOk;
      assert AllScaled(left, e.al) == [];
    }

    /** Ends the interval with a restart marker. */
    method EmitRestart()
      requires Valid() && left == [] && later != []
      modifies this, e`eobrun, e`be, e`done, e`owed, e.writer, e.counts
      ensures Sending() && InFile() && CanSendAll(later) && All() == old(All())
      ensures |past| == |old(past)| + 1 && left == old(later)[0] && later == old(later)[1..]
      ensures restartsToGo == old(restartsToGo) && nextRestartNum == old(nextRestartNum)
    {
      hide BandEncoder.Valid, BandEncoder.Sent, BandEncoder.CanSend, Band.SentScan, AllScaled, IntervalItems,
        RunItems, ItemsCovered, ItemsBits, WithMarkers, FullIntervals, Stuff, Flat, AllWrite, Padding;
      IntervalEnds();
      ghost var pad, segment := e.EmitRestart(nextRestartNum);
      IntervalItemsSnoc(e.band, e.al, past, current);
      if !e.gather {
        assert [] + e.band.SentScan(AllScaled(current, e.al), NO_RUN)
          == e.band.SentScan(AllScaled(current, e.al), NO_RUN);
        WritesWith(e.table, e.band, e.al, segment, current, pad);
        WritesSnoc(e.table, e.band, e.al, segments, past, segment, current);
        MarkersSnoc(segments, segment);
      }
      segments := segments + [segment];
      past, current, left, later := past + [current], later[0], later[0], later[1..];
      SendsNext(old(later));
    }

    lemma SendsNext(intervals: seq<seq<Block>>)
      requires e.band.Ok() && CanSendAll(intervals) && intervals != []
      ensures e.CanSend(e.band.SentScan(AllScaled(intervals[0], e.al), NO_RUN)) && CanSendAll(intervals[1..])
    {
      hide BandEncoder.CanSend, Band.SentScan, AllScaled;
    }

    /** A restart is due exactly at the end of an interval that is not the last. */
    lemma RestartIfDone()
      requires Counted() && Rest() != []
      ensures restartInterval != 0 && restartsToGo == 0 ==> left == [] && later != []
      ensures restartInterval == 0 || restartsToGo != 0 ==> left != []
      ensures later != [] && restartInterval != 0 ==> 0 < |later[0]| <= restartInterval
      ensures later != [] && restartInterval != 0 ==> (later[1..] != [] ==> |later[0]| == restartInterval)
      ensures later != [] ==> FullIntervals(restartInterval, later[1..])
    {
      if left == [] && later == [] {
        JoinedNone<Block>();
      }
      if later != [] {
        NextInterval(restartInterval, later);
      }
    }

    /** Encodes one block, after a restart if one is due. */
    method EncodeMcu(b: Block, ghost more: seq<Block>) returns (ok: bool)
      requires Valid() && Rest() == [b] + more
      modifies this, e`eobrun, e`be, e`done, e`owed, e.writer, e.counts, e.bitBuffer
      ensures ok <==> e.band.refine || e.band.InRange(Scaled(b, e.al))
      ensures ok ==> Valid() && Rest() == more && All() == old(All())
    {
      hide Sending, InFile, CanSendAll, Joined, FullIntervals, Scaled, Band.InRange;
      RestartIfDone();
      if restartInterval != 0 {
        if restartsToGo == 0 {
          JoinedFirst(later);
          EmitRestart();
          assert Rest() == [b] + more;
        }
      }
      FirstOf(left, Joined(later), b, more);
      ok := EncodeNext(b);
      if restartInterval != 0 {
        if restartsToGo == 0 {
          restartsToGo := restartInterval;
          nextRestartNum := (nextRestartNum + 1) % 8;
        }
        restartsToGo := restartsToGo - 1;
      }
    }

    /** In a first scan nothing goes through the words of a refinement. */
    lemma FirstSent(z: Zz, run: Run)
      requires e.band.Ok() && !e.band.refine
      ensures e.band.SentItems(z, run) == e.band.BlockItems(z, run) && e.band.SentRun(z, run) == e.band.BlockRun(z, run)
    {
      hide Band.BlockItems, Band.BlockRun;
    }

    method EncodeNext(b: Block) returns (ok: bool)
      requires Sending() && InFile() && left != [] && left[0] == b
      modifies this`left, e`eobrun, e`be, e`done, e`owed, e.writer, e.counts, e.bitBuffer
      ensures ok <==> e.band.refine || e.band.InRange(Scaled(b, e.al))
      ensures ok ==> Sending() && InFile() && left == old(left)[1..]
    {
      hide BandEncoder.Sent, BandEncoder.CanSend, RunItems, Band.InRange, Band.SentItems, Band.SentRun, Scaled, RunOk,
        RawBits, IntervalItems, WithMarkers, AllWrite;
      ghost var zs := AllScaled(left, e.al);
      assert zs[0] == Scaled(b, e.al) && zs[1..] == AllScaled(left[1..], e.al);
      ghost var items, run := e.band.SentItems(zs[0], e.Pending()), e.band.SentRun(zs[0], e.Pending());
      e.SendParts(items, e.band.SentScan(zs[1..], run));
      RegroupItems(e.done, items, e.band.SentScan(zs[1..], run));
      if e.band.refine {
        e.EncodeMcuAcRefine(b);
        ok := true;
      } else {
        FirstSent(zs[0], e.Pending());
        ok := e.EncodeMcuAcFirst(b);
        if !ok {
          return;
        }
      }
      left := left[1..];
    }

    /** Ends the scan. */
    method FinishScan() returns (ghost data: seq<byte>)
      requires Valid() && Rest() == []
      modifies e`eobrun, e`be, e`done, e`owed, e.writer, e.counts
      ensures e.gather ==>
        && e.counts.Length == HuffmanForest.SYMBOLS
        && forall s :: 0 <= s < HuffmanForest.SYMBOLS ==>
          e.counts[s] == Occurrences(IntervalItems(e.band, e.al, All()), s)
      ensures !e.gather ==>
        && e.writer.out == WithMarkers(segments) + Stuff(data)
        && AllWrite(e.table, e.band, e.al, segments + [data], All())
    {
      hide BandEncoder.Valid, BandEncoder.Sent, BandEncoder.CanSend, Band.SentScan, AllScaled, IntervalItems,
        RunItems, ItemsCovered, ItemsBits, WithMarkers, Stuff, Flat, AllWrite, Padding, Occurrences;
      NoneLater();
      IntervalEnds();
      ghost var pad := e.FinishPass();
      data := e.writer.data;
      IntervalItemsSnoc(e.band, e.al, past, current);
      assert All() == past + [current];
      if !e.gather {
        assert [] + e.band.SentScan(AllScaled(current, e.al), NO_RUN)
          == e.band.SentScan(AllScaled(current, e.al), NO_RUN);
        WritesWith(e.table, e.band, e.al, data, current, pad);
        WritesSnoc(e.table, e.band, e.al, segments, past, data, current);
      }
    }

    lemma NoneLater()
      requires Counted() && Rest() == []
      ensures left == [] && later == []
    {
      if later != [] {
        JoinedFirst(later);
      }
    }
  }

  lemma RegroupItems(a: seq<Item>, b: seq<Item>, c: seq<Item>)
    ensures a + (b + c) == (a + b) + c
  {
  }

  /** All blocks of a scan, in a statistics pass or an output pass. */
  method EncodeBands(enc: ScanEncoder, blocks: seq<Block>) returns (ok: bool)
    requires enc.Valid() && enc.Rest() == blocks && enc.e.band.Ok()
    modifies enc, enc.e`eobrun, enc.e`be, enc.e`done, enc.e`owed, enc.e.writer, enc.e.counts, enc.e.bitBuffer
    ensures ok <==> AllInRange(enc.e.band, AllScaled(blocks, enc.e.al))
    ensures ok ==> enc.Valid() && enc.Rest() == [] && enc.All() == old(enc.All())
  {
    hide ScanEncoder.Valid, ScanEncoder.Rest, ScanEncoder.All, Scaled, Band.InRange;
    assert blocks[0..] == blocks;
    for i := 0 to |blocks|
      invariant enc.Valid() && enc.Rest() == blocks[i..] && enc.All() == old(enc.All())
      invariant enc.e.band.refine || forall j :: 0 <= j < i ==> enc.e.band.InRange(Scaled(blocks[j], enc.e.al))
    {
      assert AllScaled(blocks, enc.e.al)[i] == Scaled(blocks[i], enc.e.al);
      ok := enc.EncodeMcu(blocks[i], blocks[i + 1..]);
      if !ok {
        return;
      }
    }
    ok := true;
  }

  /** A statistics pass. */
  method GatherBands(band: Band, al: nat, restartInterval: nat, blocks: seq<Block>) returns (ok: bool, counts: array<nat>)
    requires band.Ok()
    requires Sendable(true, EncoderTable([], []), IntervalItems(band, al, Cut(restartInterval, blocks)))
    ensures fresh(counts) && (ok <==> AllInRange(band, AllScaled(blocks, al)))
    ensures ok ==>
      && counts.Length == HuffmanForest.SYMBOLS
      && forall s :: 0 <= s < HuffmanForest.SYMBOLS ==>
        counts[s] == Occurrences(IntervalItems(band, al, Cut(restartInterval, blocks)), s)
  {
    hide ScanEncoder.Valid, ScanEncoder.Rest, ScanEncoder.All, AllInRange, AllScaled, IntervalItems, Occurrences, Cut,
      Sendable;
    var enc := new ScanEncoder(band, al, true, EncoderTable([], []), restartInterval, blocks);
    counts := enc.e.counts;
    ok := EncodeBands(enc, blocks);
    if ok {
      ghost var data := enc.FinishScan();
    }
  }

  /** An output pass. */
  method OutputBands(band: Band, al: nat, restartInterval: nat, blocks: seq<Block>, table: EncoderTable)
      returns (ok: bool, out: seq<byte>, ghost segments: seq<seq<byte>>)
    requires band.Ok() && Sendable(false, table, IntervalItems(band, al, Cut(restartInterval, blocks)))
    ensures ok <==> AllInRange(band, AllScaled(blocks, al))
    ensures ok ==> AllWrite(table, band, al, segments, Cut(restartInterval, blocks)) && |segments| > 0
    ensures ok ==> out == WithMarkers(segments[..|segments| - 1]) + Stuff(segments[|segments| - 1])
  {
    hide ScanEncoder.Valid, ScanEncoder.Rest, ScanEncoder.All, AllInRange, AllScaled, IntervalItems, Sendable, Cut,
      Stuff, WithMarkers, AllWrite;
    var enc := new ScanEncoder(band, al, false, table, restartInterval, blocks);
    out, segments := [], [];
    ok := EncodeBands(enc, blocks);
    if ok {
      ghost var data := enc.FinishScan();
      out, segments := enc.e.writer.out, enc.segments + [data];
      assert segments[..|segments| - 1] == enc.segments;
    }
  }

  // ---- decoding ----

  /** The level of every coefficient of the band before the scan. */
  predicate LevelsBefore(band: Band, al: nat, levels: seq<int>)
    requires band.Ok()
  {
    |levels| == 64 && al + 1 != LOST
    && forall k :: band.ss <= k <= band.se ==> if band.refine then levels[k] == al + 1 else levels[k] < 0
  }

  predicate HoldEach(received: seq<Block>, originals: seq<Block>, levels: seq<int>) {
    |received| == |originals| && |levels| == 64
    && forall i :: 0 <= i < |received| ==> Holds(received[i], originals[i], levels)
  }

  predicate EachRefinable(band: Band, al: nat, intervals: seq<seq<Block>>)
    requires band.Ok()
  {
    forall i :: 0 <= i < |intervals| ==> AllRefinable(band, AllScaled(intervals[i], al))
  }

  lemma RefinableParts(band: Band, al: nat, intervals: seq<seq<Block>>)
    requires band.Ok() && AllRefinable(band, AllScaled(Joined(intervals), al))
    ensures EachRefinable(band, al, intervals)
  {
    hide Scaled, Band.Refinable, Joined;
    forall i, j | 0 <= i < |intervals| && 0 <= j < |intervals[i]|
      ensures band.Refinable(AllScaled(intervals[i], al)[j])
    {
      InJoined(intervals, i, j);
      var k :| 0 <= k < |Joined(intervals)| && Joined(intervals)[k] == intervals[i][j];
      assert band.Refinable(AllScaled(Joined(intervals), al)[k]);
    }
  }

  lemma WrittenAs(table: EncoderTable, band: Band, al: nat, data: seq<byte>, blocks: seq<Block>) returns (pad: nat)
    requires band.Ok() && Writes(table, band, al, data, blocks) && AllRefinable(band, AllScaled(blocks, al))
    ensures var ts := band.ScanItems(AllScaled(blocks, al), NO_RUN);
      ItemsCovered(table, ts) && pad < 8 && Flat(data) == ItemsBits(table, ts) + Padding(pad)
  {
    hide Band.ScanItems, AllScaled, ItemsCovered, ItemsBits, Flat;
    var ts := band.ScanItems(AllScaled(blocks, al), NO_RUN);
    SentExactly(band, AllScaled(blocks, al), NO_RUN);
    pad :| pad < 8 && Flat(data) == ItemsBits(table, ts) + Padding(pad);
  }

  class ScanDecoder {
    const d: BandDecoder
    const restartInterval: nat
    var restartsToGo: int
    var nextRestartNum: nat

    ghost const finalTail: seq<byte>
    ghost const finalFill: nat
    ghost var left: seq<Block>              // the originals of what is left of this interval
    ghost var later: seq<seq<Block>>        // the intervals after it
    ghost var segments: seq<seq<byte>>
    ghost var marker: nat                   // how many restart markers have been passed

    ghost predicate InFile()
      reads this`segments, this`marker, d.reader`tail, d.reader`fill
    {
      && Terminator(finalTail, finalFill)
      && d.reader.tail == Following(segments, marker, finalTail)
      && d.reader.fill == (if segments == [] then finalFill else 1)
    }

    ghost predicate InSegment()
      reads this`left, d, d.reader
    {
      && d.Between(AllScaled(left, d.al)) && !d.reader.insufficient
      && |d.rest| < 8
    }

    ghost predicate Counted()
      reads this`restartsToGo, this`nextRestartNum, this`left, this`later, this`marker
    {
      && nextRestartNum == marker % 8
      && if restartInterval == 0 then later == []
         else
           && restartsToGo >= |left| && (later != [] ==> restartsToGo == |left|)
           && FullIntervals(restartInterval, later)
    }

    ghost predicate Valid()
      reads this, d, d.reader
    {
      InFile() && InSegment() && Counted() && d.band.Ok() && AllWrite(d.coder, d.band, d.al, segments, later)
      && EachRefinable(d.band, d.al, later)
    }

    ghost function Rest(): seq<Block>
      reads this`left, this`later
    {
      left + Joined(later)
    }

    constructor (src: seq<byte>, decoder: DecoderTable, band: Band, al: nat, restartInterval: nat,
                 ghost coder: EncoderTable, ghost table: Table, ghost blocks: seq<Block>,
                 ghost segments: seq<seq<byte>>, ghost tail: seq<byte>, ghost fill: nat)
      requires band.Ok() && coder.For(table) && decoder.For(table) && Fits(table.Sizes()) && Terminator(tail, fill)
      requires AllWrite(coder, band, al, segments, Cut(restartInterval, blocks)) && |segments| > 0
      requires AllRefinable(band, AllScaled(blocks, al))
      requires src == WithMarkers(segments[..|segments| - 1]) + Stuff(segments[|segments| - 1]) + tail
      ensures Valid() && fresh(this) && fresh(d) && fresh(d.reader)
      ensures d.band == band && d.al == al && Rest() == blocks
    {
      hide BandDecoder.Between, BitReader.Valid, BitReader.Ahead, Band.ScanItems, AllScaled, EncoderTable.For,
        DecoderTable.For, Fits, Stuff, WithMarkers, Terminator, Following, FullIntervals, Joined, Cut, Flat,
        ItemsCovered, ItemsBits, Writes, AllWrite, AllRefinable;
      ghost var all := Cut(restartInterval, blocks);
      ghost var files := segments[1..];
      ghost var following := Following(files, 0, tail);
      FileLayout(segments, |segments| - 1, tail);
      NothingFollows(segments, |segments| - 1, tail);
      assert src == Stuff(segments[0]) + following;
      FollowingEnds(files, 0, tail, fill);
      WritesNext(coder, band, al, segments, all);
      CutShape(restartInterval, blocks);
      RefinableParts(band, al, all);
      ghost var pad := WrittenAs(coder, band, al, segments[0], all[0]);
      ghost var ts := band.ScanItems(AllScaled(all[0], al), NO_RUN);
      var reader := new BitReader(src, segments[0], following, if files == [] then fill else 1);
      d := new BandDecoder(reader, decoder, band, al, coder, table, ts, Padding(pad));
      this.restartInterval, restartsToGo, nextRestartNum := restartInterval, restartInterval, 0;
      finalTail, finalFill, marker := tail, fill, 0;
      left, later, this.segments := all[0], all[1..], files;
      new;
      JoinedFirst(all);
      StartsBetween(d, AllScaled(all[0], al));
    }

    /** At the end of an interval only padding is left: every byte of the segment has been loaded. */
    lemma RestartComes()
      requires Valid() && left == [] && later != []
      ensures d.reader.Valid() && d.reader.taken == |d.reader.data| && segments != [] && |segments| == |later|
      ensures d.coder.For(d.table) && d.decoder.For(d.table) && Fits(d.table.Sizes())
    {
      hide EncoderTable.For, DecoderTable.For, Fits, Terminator, Following, FullIntervals, Writes, BitReader.SourceOk;
      WaitingNone(d.band, []);
      assert AllScaled(left, d.al) == [];
      assert d.owed == [];
      assert |d.reader.Ahead()| < 8;
    }

    /** Passes the restart marker; no run is pending in the next interval. */
    method ProcessRestart()
      requires Valid() && left == [] && later != [] && restartInterval != 0
      modifies this, d`owed, d`eobrun, d`rest, d.reader
      ensures InFile() && InSegment() && d.band.Ok() && AllWrite(d.coder, d.band, d.al, segments, later)
      ensures EachRefinable(d.band, d.al, later)
      ensures nextRestartNum == marker % 8 && restartsToGo == restartInterval
      ensures left == old(later)[0] && later == old(later)[1..]
    {
      hide BandDecoder.Between, BitReader.Valid, BitReader.Ahead, Band.ScanItems, AllScaled, EncoderTable.For,
        DecoderTable.For, Fits, Stuff, Terminator, Following, FullIntervals, Joined, Flat, ItemsCovered, ItemsBits,
        Writes, AllWrite, AllRefinable;
      RestartComes();
      ghost var next, files, n := segments[0], segments[1..], marker;
      NextInFile(segments, n, finalTail, finalFill);
      WritesNext(d.coder, d.band, d.al, segments, later);
      ghost var pad := WrittenAs(d.coder, d.band, d.al, next, later[0]);
      d.reader.PassMarker(nextRestartNum, next, Following(files, n + 1, finalTail), if files == [] then finalFill else 1);
      nextRestartNum := (nextRestartNum + 1) % 8;
      d.eobrun := 0;
      restartsToGo := restartInterval;
      if d.reader.unreadMarker == 0 {
        d.reader.insufficient := false;
      }
      d.owed, d.rest := d.band.ScanItems(AllScaled(later[0], d.al), NO_RUN), Padding(pad);
      StartsBetween(d, AllScaled(later[0], d.al));
      left, later, segments, marker := later[0], later[1..], files, n + 1;
    }

    /** A restart is due exactly at the end of an interval that is not the last. */
    lemma RestartIfDone()
      requires Counted() && Rest() != []
      ensures restartInterval != 0 && restartsToGo == 0 ==> left == [] && later != []
      ensures restartInterval == 0 || restartsToGo != 0 ==> left != []
      ensures later != [] && restartInterval != 0 ==> 0 < |later[0]| <= restartInterval
      ensures later != [] && restartInterval != 0 ==> (later[1..] != [] ==> |later[0]| == restartInterval)
      ensures later != [] ==> FullIntervals(restartInterval, later[1..])
    {
      if left == [] && later == [] {
        JoinedNone<Block>();
      }
      if later != [] {
        NextInterval(restartInterval, later);
      }
    }

    /** Decodes one block, after a restart if one is due. */
    method DecodeMcu(start: Block, ghost original: Block, ghost more: seq<Block>, ghost levels: seq<int>)
        returns (b: Block)
      requires Valid() && Rest() == [original] + more
      requires LevelsBefore(d.band, d.al, levels) && Holds(start, original, levels)
      requires d.band.refine || d.band.InRange(Scaled(original, d.al))
      modifies this, d`owed, d`eobrun, d`rest, d.reader
      ensures Valid() && Rest() == more
      ensures Holds(b, original, Raise(levels, d.band.ss, d.band.se, d.al))
    {
      hide InFile, InSegment, AllWrite, Joined, FullIntervals, Scaled, Band.InRange, Holds, Raise, LevelsBefore;
      RestartIfDone();
      if restartInterval != 0 {
        if restartsToGo == 0 {
          JoinedFirst(later);
          ProcessRestart();
          assert Rest() == [original] + more;
        }
      }
      FirstOf(left, Joined(later), original, more);
      b := DecodeNext(start, original, levels);
      restartsToGo := restartsToGo - 1;
    }

    method DecodeNext(start: Block, ghost original: Block, ghost levels: seq<int>) returns (b: Block)
      requires InFile() && InSegment() && d.band.Ok() && left != [] && left[0] == original
      requires LevelsBefore(d.band, d.al, levels) && Holds(start, original, levels)
      requires d.band.refine || d.band.InRange(Scaled(original, d.al))
      modifies this`left, d`owed, d`eobrun, d.reader`getBuffer, d.reader`bitsLeft, d.reader`pos,
        d.reader`unreadMarker, d.reader`taken, d.reader`insufficient
      ensures InFile() && InSegment() && left == old(left)[1..]
      ensures Holds(b, original, Raise(levels, d.band.ss, d.band.se, d.al))
    {
      hide BandDecoder.Between, Scaled, Band.InRange, Holds, Raise, HoldsStageBefore, FitsCoef, BandDone, Pow2, At,
        Following, Terminator;
      ghost var zs := AllScaled(left, d.al);
      assert zs[0] == Scaled(original, d.al) && zs[1..] == AllScaled(left[1..], d.al);
      ScaledFits(original, d.al, d.band.ss, d.band.se);
      if d.band.refine {
        HoldsBefore(start, original, levels, d.band.ss, d.band.se, d.al);
        b := d.DecodeMcuAcRefine(start, zs);
      } else {
        HoldsNothing(start, original, levels, d.band.ss, d.band.se);
        b := d.DecodeMcuAcFirst(start, zs);
      }
      HoldsAfterFirst(start, b, original, levels, d.band.ss, d.band.se, d.al);
      left := left[1..];
    }
  }

  lemma StartsBetween(d: BandDecoder, zs: seq<Zz>)
    requires d.band.Ok() && d.Comes() && d.eobrun == 0 && d.owed == d.band.ScanItems(zs, NO_RUN)
    ensures d.Between(zs)
  {
    hide Band.ScanItems, BandDecoder.Comes;
    WaitingNone(d.band, zs);
  }

  /** Decodes all blocks of a scan into blocks that hold what was sent before it. */
  method DecodeBands(dec: ScanDecoder, starts: seq<Block>, ghost originals: seq<Block>, ghost levels: seq<int>)
      returns (out: seq<Block>)
    requires dec.Valid() && dec.Rest() == originals && dec.d.band.Ok()
    requires LevelsBefore(dec.d.band, dec.d.al, levels) && HoldEach(starts, originals, levels)
    requires AllInRange(dec.d.band, AllScaled(originals, dec.d.al))
    modifies dec, dec.d`owed, dec.d`eobrun, dec.d`rest, dec.d.reader
    ensures HoldEach(out, originals, Raise(levels, dec.d.band.ss, dec.d.band.se, dec.d.al))
  {
    hide ScanDecoder.Valid, ScanDecoder.Rest, Scaled, Band.InRange, Holds, Raise, LevelsBefore;
    ghost var after := Raise(levels, dec.d.band.ss, dec.d.band.se, dec.d.al);
    out := [];
    assert originals[0..] == originals;
    for i := 0 to |starts|
      invariant dec.Valid() && dec.Rest() == originals[i..] && |out| == i
      invariant forall j :: 0 <= j < i ==> Holds(out[j], originals[j], after)
    {
      assert AllScaled(originals, dec.d.al)[i] == Scaled(originals[i], dec.d.al);
      var b := dec.DecodeMcu(starts[i], originals[i], originals[i + 1..], levels);
      out := out + [b];
    }
  }

  /**
    A scan is a band sent in restart intervals with the table made for it: what came before, and what is received after.
    It fails when a value is out of range. A scan with a coefficient that cannot be refined is not decoded here: what
    the encoder sends for it is not what the specification says (SentDiffers). Otherwise it fails only if the symbols
    are so many that a code length over MAX_CLEN is possible.
  */
  method BandRoundTrip(band: Band, al: nat, restartInterval: nat, originals: seq<Block>, received: seq<Block>,
                       ghost levels: seq<int>, marker: byte)
      returns (ok: bool, out: seq<Block>)
    requires band.Ok() && originals != [] && 0 < marker < 0xFF
    requires LevelsBefore(band, al, levels) && HoldEach(received, originals, levels)
    requires Symbols(IntervalItems(band, al, Cut(restartInterval, originals))) < LARGE
    ensures ok ==> AllInRange(band, AllScaled(originals, al)) && AllRefinable(band, AllScaled(originals, al))
    ensures ok ==> HoldEach(out, originals, Raise(levels, band.ss, band.se, al))
    ensures AllInRange(band, AllScaled(originals, al)) && AllRefinable(band, AllScaled(originals, al)) && !ok ==>
      Symbols(IntervalItems(band, al, Cut(restartInterval, originals))) + 1 >= FIB_35
  {
    hide IntervalItems, Scaled, AllScaled, Occurrences, AllInRange, LevelsBefore, HoldEach, Raise, ItemsCovered, Cut,
      EncoderTable.For, DecoderTable.For, Fits, Expand, Stuff, WithMarkers, AllSized, AllWrite, ScanDecoder.Valid,
      ScanDecoder.Rest, AllRefinable, Symbols, EachRefinable, Sendable;
    out := [];
    ok := AllRefinable(band, AllScaled(originals, al));
    if !ok {
      return;
    }
    ghost var all := Cut(restartInterval, originals);
    ghost var ts := IntervalItems(band, al, all);
    CutShape(restartInterval, originals);
    RefinableParts(band, al, all);
    RefinableSendable(band, al, all);
    var counts;
    ok, counts := GatherBands(band, al, restartInterval, originals);
    if !ok {
      return;
    }
    InRangeSized(band, al, all);
    BeginsRefinable(band, al, all);
    var coder, decoder;
    ghost var t;
    ok, coder, decoder, t := MakeBandTable(counts, ts);
    if !ok {
      return;
    }
    CoveredSendable(coder, ts);
    var bytes;
    ghost var segments;
    ok, bytes, segments := OutputBands(band, al, restartInterval, originals, coder);
    var tail: seq<byte> := [0xFF, marker];
    var dec := new ScanDecoder(bytes + tail, decoder, band, al, restartInterval, coder, t, originals, segments, tail, 1);
    out := DecodeBands(dec, received, originals, levels);
  }

  lemma BeginsRefinable(band: Band, al: nat, intervals: seq<seq<Block>>)
    requires band.Ok() && EachRefinable(band, al, intervals) && intervals != [] && intervals[0] != []
    ensures var ts := IntervalItems(band, al, intervals); ts != [] && ts[0].Symbol?
  {
    hide IntervalItems, AllRefinable;
    BeginsIntervals(band, al, intervals);
  }

  lemma CoveredSendable(e: EncoderTable, ts: seq<Item>)
    requires ItemsCovered(e, ts)
    ensures Sendable(false, e, ts)
  {
    hide ItemsCovered;
  }

  /** All symbols that the specification makes can be counted. */
  lemma RefinableSendable(band: Band, al: nat, intervals: seq<seq<Block>>)
    requires band.Ok() && EachRefinable(band, al, intervals)
    ensures Sendable(true, EncoderTable([], []), IntervalItems(band, al, intervals))
  {
    hide Band.ScanItems, Band.SentScan, AllScaled, AllRefinable, Magnitudes, IntervalItems, AllSized;
    forall i | 0 <= i < |intervals|
      ensures AllSized(band.SentScan(AllScaled(intervals[i], al), NO_RUN), 16)
    {
      AlwaysSixteen(band, intervals[i], al);
      NoRunOk();
      SizedScan(band, AllScaled(intervals[i], al), NO_RUN, 16);
      SentExactly(band, AllScaled(intervals[i], al), NO_RUN);
    }
    SizedIntervals(band, al, intervals, 16);
    SizedCounts(IntervalItems(band, al, intervals));
  }

  lemma NoRunOk()
    ensures RunOk(NO_RUN)
  {
  }

  lemma SizedCounts(ts: seq<Item>)
    requires AllSized(ts, 16)
    ensures Sendable(true, EncoderTable([], []), ts)
  {
    hide Pow2;
    forall i | 0 <= i < |ts| && ts[i].Symbol?
      ensures ts[i].s < HuffmanForest.SYMBOLS
    {
      assert Sized(ts[i], 16);
    }
  }

  lemma InRangeSized(band: Band, al: nat, intervals: seq<seq<Block>>)
    requires band.Ok() && AllInRange(band, AllScaled(Joined(intervals), al)) && EachRefinable(band, al, intervals)
    ensures AllSized(IntervalItems(band, al, intervals), 10)
  {
    hide Band.ScanItems, Band.SentScan, BitLength, AllSized, Scaled, IntervalItems, Joined, AllRefinable;
    forall i | 0 <= i < |intervals|
      ensures AllSized(band.SentScan(AllScaled(intervals[i], al), NO_RUN), 10)
    {
      if !band.refine {
        forall j | 0 <= j < |intervals[i]|
          ensures band.InRange(AllScaled(intervals[i], al)[j])
        {
          InJoined(intervals, i, j);
          var k :| 0 <= k < |Joined(intervals)| && Joined(intervals)[k] == intervals[i][j];
          assert band.InRange(AllScaled(Joined(intervals), al)[k]);
        }
      }
      NoRunOk();
      SizedScan(band, AllScaled(intervals[i], al), NO_RUN, 10);
      SentExactly(band, AllScaled(intervals[i], al), NO_RUN);
    }
    SizedIntervals(band, al, intervals, 10);
  }

  lemma {:induction false} InJoined<T>(intervals: seq<seq<T>>, i: nat, j: nat)
    requires i < |intervals| && j < |intervals[i]|
    ensures intervals[i][j] in Joined(intervals)
  {
    if i > 0 {
      InJoined(intervals[1..], i - 1, j);
    }
  }
}
