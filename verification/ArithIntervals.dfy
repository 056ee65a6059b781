/** Scans through the arithmetic coder in restart intervals: each interval is a segment of its own between markers. */
module ArithIntervals {
  import opened Powers
  import opened ByteStream
  import opened RestartIntervals
  import opened CodeInterval
  import opened Coefficients
  import opened SuccessiveApproximation
  import opened ArithModel
  import opened ArithEncoder
  import opened ArithDecoder
  import opened ArithMcuEncoder
  import opened ArithMcuDecoder
  import opened ArithScans

  /** The predictions and contexts after some MCUs. */
  function ScanState(scan: Scan, r: Routine, s: DcState, mcus: seq<seq<Block>>): (t: DcState)
    requires r.Ok(scan) && DcStateOk(scan, s) && McusOk(scan, mcus)
    ensures DcStateOk(scan, t)
    decreases |mcus|
  {
    if mcus == [] then s else ScanState(scan, r, McuNext(scan, r, s, mcus[0]), mcus[1..])
  }

  lemma {:induction false} ScanSnoc(scan: Scan, r: Routine, s: DcState, mcus: seq<seq<Block>>, m: seq<Block>)
    requires r.Ok(scan) && DcStateOk(scan, s) && McusOk(scan, mcus) && McuOk(scan, m)
    ensures McusOk(scan, mcus + [m])
    ensures var t := ScanState(scan, r, s, mcus);
      && ScanPlan(scan, r, s, mcus + [m]) == ScanPlan(scan, r, s, mcus) + McuPlan(scan, r, t, m)
      && ScanState(scan, r, s, mcus + [m]) == McuNext(scan, r, t, m)
      && (ScanFollows(scan, r, s, mcus + [m]) <==> ScanFollows(scan, r, s, mcus) && McuFollows(scan, r, t, m))
    decreases |mcus|
  {
    hide McuPlan, McuNext, McuFollows;
    var all := mcus + [m];
    if mcus == [] {
      assert all == [m] && all[1..] == [];
    } else {
      assert all[0] == mcus[0] && all[1..] == mcus[1..] + [m];
      var t := McuNext(scan, r, s, mcus[0]);
      ScanSnoc(scan, r, t, mcus[1..], m);
      Assoc(McuPlan(scan, r, s, mcus[0]), ScanPlan(scan, r, t, mcus[1..]),
            McuPlan(scan, r, ScanState(scan, r, t, mcus[1..]), m));
    }
  }

  /** The bytes of a segment name a value that stands for the decisions of an interval. */
  predicate Holding(scan: Scan, r: Routine, data: seq<byte>, mcus: seq<seq<Block>>) {
    && r.Ok(scan) && McusOk(scan, mcus)
    && Inside(data, Run(FRESH, ScanPlan(scan, r, StartDc(scan), mcus)).iv)
  }

  predicate AllHolding(scan: Scan, r: Routine, segments: seq<seq<byte>>, intervals: seq<seq<seq<Block>>>) {
    |segments| == |intervals|
    && forall i :: 0 <= i < |segments| ==> Holding(scan, r, segments[i], intervals[i])
  }

  lemma HoldingSnoc(scan: Scan, r: Routine, segments: seq<seq<byte>>, intervals: seq<seq<seq<Block>>>,
                    data: seq<byte>, mcus: seq<seq<Block>>)
    requires AllHolding(scan, r, segments, intervals) && Holding(scan, r, data, mcus)
    ensures AllHolding(scan, r, segments + [data], intervals + [mcus])
  {
    hide Holding;
  }

  lemma HoldingNext(scan: Scan, r: Routine, segments: seq<seq<byte>>, intervals: seq<seq<seq<Block>>>)
    requires AllHolding(scan, r, segments, intervals) && segments != []
    ensures |segments| == |intervals| && Holding(scan, r, segments[0], intervals[0])
    ensures AllHolding(scan, r, segments[1..], intervals[1..])
  {
    hide Holding;
  }

  // ---- encoding ----

  class ScanEncoder {
    const enc: McuEncoder
    const r: Routine
    const restartInterval: nat
    var restartsToGo: nat       // MCUs left in this restart interval
    var nextRestartNum: nat     // number of the next restart marker, 0..7

    ghost var intervals: seq<seq<seq<Block>>>   // the MCUs of the finished intervals
    ghost var segments: seq<seq<byte>>          // and the bytes of their segments
    ghost var current: seq<seq<Block>>          // the MCUs of this interval

    ghost predicate Valid()
      reads this`intervals, this`segments, this`current, enc, enc.arith
    {
      && r.Ok(enc.scan) && McusOk(enc.scan, current) && enc.Ready()
      && enc.arith.coded == ScanPlan(enc.scan, r, StartDc(enc.scan), current)
      && DcState(enc.lastDc, enc.dcContext) == ScanState(enc.scan, r, StartDc(enc.scan), current)
      && enc.arith.before == WithMarkers(segments)
      && AllHolding(enc.scan, r, segments, intervals)
    }

    ghost predicate Counted()
      reads this
    {
      && nextRestartNum == |intervals| % 8
      && if restartInterval == 0 then intervals == []
         else
           && |current| + restartsToGo == restartInterval
           && forall i :: 0 <= i < |intervals| ==> |intervals[i]| == restartInterval
    }

    constructor (scan: Scan, r: Routine, restartInterval: nat)
      requires r.Ok(scan)
      ensures Valid() && Counted() && fresh(this) && fresh(enc) && fresh(enc.arith)
      ensures enc.scan == scan && this.r == r && this.restartInterval == restartInterval
      ensures intervals == [] && current == []
    {
      hide Encoder.Valid, McuPlan, McuNext, Holding;
      enc := new McuEncoder(scan);
      this.r, this.restartInterval := r, restartInterval;
      restartsToGo, nextRestartNum := restartInterval, 0;
      intervals, segments, current := [], [], [];
    }

    /** Whether the next MCU starts a new interval. */
    predicate RestartDue()
      reads this
    {
      restartInterval != 0 && restartsToGo == 0
    }

    /** Ends the segment of the current interval. */
    method FinishSegment() returns (ghost data: seq<byte>)
      requires Valid()
      modifies enc.arith
      ensures enc.arith.Written() && enc.arith.data == data
      ensures enc.arith.out == WithMarkers(segments) + Stuff(data)
      ensures Holding(enc.scan, r, data, current) && (data != [] ==> data[|data| - 1] != 0)
      ensures AllHolding(enc.scan, r, segments + [data], intervals + [current])
    {
      hide Encoder.Valid, Inside, Run, ScanPlan, ScanState, StartDc, Stuff, WithMarkers, AllHolding;
      enc.arith.Finish();
      data := enc.arith.data;
      HoldingSnoc(enc.scan, r, segments, intervals, data, current);
    }

    /** Ends the interval with a restart marker, and starts afresh. */
    method EmitRestart()
      requires Valid() && nextRestartNum == |intervals| % 8 && |segments| == |intervals|
      modifies this`intervals, this`segments, this`current, enc, enc.arith
      ensures Valid() && intervals == old(intervals) + [old(current)] && current == []
    {
      hide Encoder.Valid, Inside, Run, ScanPlan, ScanState, StartDc, Stuff, WithMarkers, AllHolding;
      ghost var data := FinishSegment();
      MarkersSnoc(segments, data);
      enc.arith.Restart(0xD0 + nextRestartNum);
      enc.Reset();
      intervals, segments, current := intervals + [current], segments + [data], [];
      NothingYet(enc.scan, r);
    }

    lemma Settled()
      requires Valid()
      ensures |segments| == |intervals|
    {
      hide Encoder.Valid, Inside, Run, ScanPlan, ScanState, StartDc, Stuff, WithMarkers, Holding;
    }

    /** Encodes one MCU, after a restart marker if one is due. */
    method EncodeMcu(mcu: seq<Block>)
      requires Valid() && Counted() && McuOk(enc.scan, mcu)
      modifies this, enc, enc.arith
      ensures Valid() && Counted()
      ensures if old(RestartDue()) then intervals == old(intervals) + [old(current)] && current == [mcu]
        else intervals == old(intervals) && current == old(current) + [mcu]
    {
      hide Valid;
      Settled();
      if restartInterval != 0 {
        if restartsToGo == 0 {
          EmitRestart();
          restartsToGo := restartInterval;
          nextRestartNum := (nextRestartNum + 1) % 8;
        }
        restartsToGo := restartsToGo - 1;
      }
      EncodeNext(mcu);
    }

    method EncodeNext(mcu: seq<Block>)
      requires Valid() && McuOk(enc.scan, mcu)
      modifies this`current, enc, enc.arith
      ensures Valid() && current == old(current) + [mcu]
    {
      hide McuEncoder.Ready, ScanPlan, ScanState, ScanFollows, McuPlan, McuNext, StartDc, WithMarkers, AllHolding;
      ReadyToEncode();
      ScanSnoc(enc.scan, r, StartDc(enc.scan), current, mcu);
      EncodeOne(enc, r, mcu);
      current := current + [mcu];
    }

    lemma ReadyToEncode()
      requires Valid()
      ensures r.Ok(enc.scan) && DcStateOk(enc.scan, StartDc(enc.scan)) && McusOk(enc.scan, current) && enc.Ready()
    {
      hide Encoder.Valid, ScanPlan, ScanState, WithMarkers, AllHolding;
    }
  }

  lemma NothingYet(scan: Scan, r: Routine)
    requires r.Ok(scan)
    ensures DcStateOk(scan, StartDc(scan)) && McusOk(scan, [])
    ensures ScanPlan(scan, r, StartDc(scan), []) == [] && ScanState(scan, r, StartDc(scan), []) == StartDc(scan)
    ensures ScanFollows(scan, r, StartDc(scan), [])
  {
  }

  /** The segments and intervals of a scan, as the encoder leaves them. */
  predicate Encoded(scan: Scan, r: Routine, restartInterval: nat,
                    intervals: seq<seq<seq<Block>>>, segments: seq<seq<byte>>) {
    && |segments| == |intervals| > 0 && AllHolding(scan, r, segments, intervals)
    && if restartInterval == 0 then |intervals| == 1
       else |intervals[0]| <= restartInterval && (|intervals| == 1 || FullIntervals(restartInterval, intervals))
  }

  /** All MCUs of a scan through the encoder. */
  method EncodeScan(scan: Scan, r: Routine, restartInterval: nat, mcus: seq<seq<Block>>)
      returns (bytes: seq<byte>, ghost intervals: seq<seq<seq<Block>>>, ghost segments: seq<seq<byte>>)
    requires r.Ok(scan) && McusOk(scan, mcus)
    ensures Encoded(scan, r, restartInterval, intervals, segments) && Joined(intervals) == mcus
    ensures |segments| > 0 && bytes == WithMarkers(segments[..|segments| - 1]) + Stuff(segments[|segments| - 1])
  {
    hide ScanEncoder.Valid, Holding, AllHolding, WithMarkers, Stuff, Joined;
    var enc := new ScanEncoder(scan, r, restartInterval);
    JoinedNone<seq<Block>>();
    for i := 0 to |mcus|
      invariant fresh(enc) && fresh(enc.enc) && fresh(enc.enc.arith)
      invariant enc.enc.scan == scan && enc.r == r && enc.restartInterval == restartInterval
      invariant enc.Valid() && enc.Counted()
      invariant Joined(enc.intervals) + enc.current == mcus[..i]
      invariant if i > 0 then enc.current != [] else enc.intervals == []
    {
      JoinedSnoc(enc.intervals, enc.current);
      enc.EncodeMcu(mcus[i]);
    }
    enc.Settled();
    ghost var data := enc.FinishSegment();
    bytes := enc.enc.arith.out;
    intervals, segments := enc.intervals + [enc.current], enc.segments + [data];
    JoinedSnoc(enc.intervals, enc.current);
  }

  // ---- decoding ----

  /** Levels of blocks of which nothing has been sent. */
  function Unsent(n: nat): (levels: seq<seq<int>>)
    ensures |levels| == n && forall i :: 0 <= i < n ==> levels[i] == seq(64, _ => -1)
  {
    seq(n, _ => seq(64, _ => -1))
  }

  lemma UnsentIsZero(data: seq<Block>, blocks: seq<Block>)
    requires |data| == |blocks| && HoldAll(data, blocks, Unsent(|blocks|))
    ensures forall i :: 0 <= i < |data| ==> data[i] == ZERO_BLOCK
  {
    hide At;
    forall i | 0 <= i < |data|
      ensures data[i] == ZERO_BLOCK
    {
      assert Claims(data[i], blocks[i], Unsent(|blocks|)[i]);
      forall k | 0 <= k < 64
        ensures At(data[i], k) == At(ZERO_BLOCK, k)
      {
        ZeroBlockAt(k);
      }
      SameBlock(data[i], ZERO_BLOCK);
    }
  }

  lemma ZeroIsUnsent(blocks: seq<Block>)
    ensures HoldAll(seq(|blocks|, _ => ZERO_BLOCK), blocks, Unsent(|blocks|))
  {
    hide At;
    forall k | 0 <= k < 64
      ensures At(ZERO_BLOCK, k) == 0
    {
      ZeroBlockAt(k);
    }
  }

  lemma SentIsExact(out: seq<Block>, blocks: seq<Block>)
    ensures HoldAll(out, blocks, RaiseAll(Unsent(|blocks|), 0, 63, 0)) <==> out == blocks
  {
    hide At;
    assert Pow2(0) == 1;
    if |out| == |blocks| {
      forall i | 0 <= i < |out|
        ensures Claims(out[i], blocks[i], Lift(Unsent(|blocks|)[i], 0, 63, 0)) <==> out[i] == blocks[i]
      {
        if Claims(out[i], blocks[i], Lift(Unsent(|blocks|)[i], 0, 63, 0)) {
          SameBlock(out[i], blocks[i]);
        }
      }
      if HoldAll(out, blocks, RaiseAll(Unsent(|blocks|), 0, 63, 0)) {
        assert out == blocks;
      }
    }
  }

  /** What a routine expects of the blocks it is given: nothing sent, or everything down to the bit above. */
  predicate LevelsReady(r: Routine, levels: seq<seq<int>>)
    requires forall i :: 0 <= i < |levels| ==> LevelsOk(levels[i])
  {
    match r
    case Baseline => levels == Unsent(|levels|)
    case FirstDc(_) => true
    case RefineDc(al) => forall i :: 0 <= i < |levels| && levels[i] != [] ==>
      levels[i][0] == al + 1 || levels[i][0] == LOST
    case FirstAc(ss, se, _) =>
      |levels| == 1 && |levels[0]| == 64 && 1 <= ss <= se < 64 && forall k :: ss <= k <= se ==> levels[0][k] < 0
    case RefineAc(ss, se, al) =>
      && |levels| == 1 && |levels[0]| == 64 && 1 <= ss <= se < 64 && al + 1 != LOST
      && forall k :: ss <= k <= se ==> levels[0][k] == al + 1
  }

  /** Only DC differences can be too large. */
  lemma {:induction false} AlwaysFollows(scan: Scan, r: Routine, s: DcState, mcus: seq<seq<Block>>)
    requires r.Ok(scan) && DcStateOk(scan, s) && McusOk(scan, mcus) && !r.Baseline? && !r.FirstDc?
    ensures ScanFollows(scan, r, s, mcus)
    decreases |mcus|
  {
    if mcus != [] {
      AlwaysFollows(scan, r, McuNext(scan, r, s, mcus[0]), mcus[1..]);
    }
  }

  lemma OnlyDcFails(scan: Scan, r: Routine, mcus: seq<seq<Block>>)
    requires r.Ok(scan) && DcStateOk(scan, StartDc(scan)) && McusOk(scan, mcus)
    ensures !ScanFollows(scan, r, StartDc(scan), mcus) ==> r.Baseline? || r.FirstDc?
  {
    hide ScanFollows;
    if !r.Baseline? && !r.FirstDc? {
      AlwaysFollows(scan, r, StartDc(scan), mcus);
    }
  }

  /** Blocks left as they are keep the claims on everything but DC values. */
  lemma DataLost(data: seq<Block>, blocks: seq<Block>, levels: seq<seq<int>>)
    requires HoldAll(data, blocks, levels)
    ensures |data| == |blocks| && (forall i :: 0 <= i < |levels| ==> LevelsOk(levels[i]))
      && HoldAll(data, blocks, LoseAll(levels))
  {
    assert forall i :: 0 <= i < |data| ==> data[i] == data[i][0 := data[i][0]];
    LostDc(data, data, blocks, levels);
  }

  /** Decodes one MCU by the routine of the scan. */
  method DecodeOne(dec: McuDecoder, r: Routine, data: seq<Block>, ghost s: DcState, ghost blocks: seq<Block>,
                   ghost levels: seq<seq<int>>, ghost more: seq<Decision>)
      returns (out: seq<Block>)
    requires r.Ok(dec.scan) && dec.Matches(s) && McuOk(dec.scan, blocks)
    requires HoldAll(data, blocks, levels) && LevelsReady(r, levels)
    requires dec.Expects(McuPlan(dec.scan, r, s, blocks), more)
    modifies dec, dec.arith
    ensures dec.arith.Valid() && dec.arith.Source() == old(dec.arith.Source())
    ensures dec.failed <==> !McuFollows(dec.scan, r, s, blocks)
    ensures |out| == |blocks| && (dec.failed && r.FirstDc? ==> HoldAll(out, blocks, LoseAll(levels)))
    ensures !dec.failed ==>
      && dec.Expects([], more) && dec.Matches(McuNext(dec.scan, r, s, blocks))
      && HoldAll(out, blocks, RaiseAll(levels, r.First(), r.Last(), r.Low()))
  {
    hide Decoder.Valid, McuDecisions, McuState, McuFits, DcBits, AcFrom, RefineFrom, Holds, Raise, Unsent, DcOnlyStored;
    match r
    case Baseline =>
      UnsentIsZero(data, blocks);
      out := dec.DecodeMcu(data, s, blocks, more);
      SentIsExact(out, blocks);
    case FirstDc(al) =>
      out := dec.DecodeMcuDcFirst(data, al, s, blocks, levels, more);
      LostDc(data, out, blocks, levels);
    case RefineDc(al) =>
      out := dec.DecodeMcuDcRefine(data, al, blocks, levels, more);
    case FirstAc(ss, se, al) =>
      var b := dec.DecodeMcuAcFirst(data[0], ss, se, al, blocks[0], levels[0], more);
      out := [b];
    case RefineAc(ss, se, al) =>
      var b := dec.DecodeMcuAcRefine(data[0], ss, se, al, blocks[0], levels[0], more);
      out := [b];
  }

  class ScanDecoder {
    const dec: McuDecoder
    const r: Routine
    const restartInterval: nat
    var restartsToGo: int
    var nextRestartNum: nat

    ghost const finalTail: seq<byte>
    ghost const finalFill: nat
    ghost var done: seq<seq<Block>>             // the MCUs of this interval that have been passed
    ghost var mcus: seq<seq<Block>>             // what is left of this interval
    ghost var intervals: seq<seq<seq<Block>>>   // the intervals after it
    ghost var segments: seq<seq<byte>>
    ghost var marker: nat                       // how many restart markers have been passed

    ghost predicate InFile()
      reads this`segments, this`marker, dec.arith
    {
      && Terminator(finalTail, finalFill) && dec.arith.SourceOk()
      && dec.arith.tail == Following(segments, marker, finalTail)
      && dec.arith.fill == (if segments == [] then finalFill else 1)
    }

    /** Unless a difference in this interval was too large, the decisions to come are those of what is left of it. */
    ghost predicate InSegment()
      reads this`done, this`mcus, dec, dec.arith
    {
      && r.Ok(dec.scan) && McusOk(dec.scan, done) && McusOk(dec.scan, mcus)
      && DcStateOk(dec.scan, StartDc(dec.scan))
      && (dec.failed <==> !ScanFollows(dec.scan, r, StartDc(dec.scan), done))
      && (!dec.failed ==>
            var s := ScanState(dec.scan, r, StartDc(dec.scan), done);
            dec.Matches(s) && dec.Expects(ScanPlan(dec.scan, r, s, mcus), []))
    }

    ghost predicate Counted()
      reads this`restartsToGo, this`nextRestartNum, this`done, this`mcus, this`intervals, this`marker
    {
      && nextRestartNum == marker % 8
      && if restartInterval == 0 then intervals == []
         else
           && restartsToGo + |done| == restartInterval && |mcus| <= restartsToGo
           && (intervals != [] ==> restartsToGo == |mcus|)
           && FullIntervals(restartInterval, intervals)
    }

    ghost predicate Valid()
      reads this, dec, dec.arith
    {
      InFile() && InSegment() && Counted() && AllHolding(dec.scan, r, segments, intervals)
    }

    /** The MCUs still to come. */
    ghost function Rest(): seq<seq<Block>>
      reads this`mcus, this`intervals
    {
      mcus + Joined(intervals)
    }

    /** Whether the next MCU starts a new interval. */
    predicate RestartDue()
      reads this`restartsToGo
    {
      restartInterval != 0 && restartsToGo == 0
    }

    constructor (src: seq<byte>, scan: Scan, r: Routine, restartInterval: nat,
                 ghost intervals: seq<seq<seq<Block>>>, ghost segments: seq<seq<byte>>, ghost tail: seq<byte>,
                 ghost fill: nat)
      requires Encoded(scan, r, restartInterval, intervals, segments) && Terminator(tail, fill)
      requires src == WithMarkers(segments[..|segments| - 1]) + Stuff(segments[|segments| - 1]) + tail
      ensures Valid() && fresh(this) && fresh(dec) && fresh(dec.arith)
      ensures dec.scan == scan && this.r == r && this.restartInterval == restartInterval && !dec.failed
      ensures Rest() == Joined(intervals) && done == []
    {
      hide Decoder.Valid, Inside, Run, ScanPlan, StartDc, Stuff, WithMarkers, Terminator, Following, FullIntervals,
        McuDecoder.Matches, Joined;
      ghost var files := segments[1..];
      ghost var following := Following(files, 0, tail);
      FileLayout(segments, |segments| - 1, tail);
      NothingFollows(segments, |segments| - 1, tail);
      assert src == Stuff(segments[0]) + following;
      FollowingEnds(files, 0, tail, fill);
      HoldingNext(scan, r, segments, intervals);
      ghost var plan := ScanPlan(scan, r, StartDc(scan), intervals[0]);
      var arith := new Decoder(src, segments[0], following, if files == [] then fill else 1, plan);
      dec := new McuDecoder(arith, scan);
      this.r, this.restartInterval := r, restartInterval;
      restartsToGo, nextRestartNum := restartInterval, 0;
      finalTail, finalFill, done, marker := tail, fill, [], 0;
      mcus, this.intervals, this.segments := intervals[0], intervals[1..], files;
      new;
      arith.SourceIsOk();
      assert plan + [] == plan;
      NothingYet(scan, r);
      FirstInterval(restartInterval, intervals);
      JoinedFirst(intervals);
    }

    lemma Settled()
      requires Valid()
      ensures |segments| == |intervals|
    {
      hide InFile, InSegment, Counted, Holding;
    }

    lemma Counts()
      requires Valid()
      ensures restartInterval != 0 ==> restartsToGo + |done| == restartInterval
    {
      hide InFile, InSegment, AllHolding, FullIntervals;
    }

    /** Passes the restart marker and starts the next interval afresh, whatever happened in this one. */
    method ProcessRestart()
      requires Valid() && mcus == [] && segments != [] && restartInterval != 0
      modifies this, dec, dec.arith
      ensures Valid() && |old(intervals)| > 0 && mcus == old(intervals)[0] && intervals == old(intervals)[1..]
      ensures done == [] && restartsToGo == restartInterval && !dec.failed
    {
      hide Decoder.Valid, Decoder.SourceOk, Inside, Run, ScanPlan, StartDc, ScanFollows, ScanState, Stuff, Terminator,
        Following, FullIntervals, McuDecoder.Matches, AllHolding;
      ghost var next, later, n := segments[0], segments[1..], marker;
      NextInFile(segments, n, finalTail, finalFill);
      HoldingNext(dec.scan, r, segments, intervals);
      ghost var plan := ScanPlan(dec.scan, r, StartDc(dec.scan), intervals[0]);
      ghost var place := Segment(next, Following(later, n + 1, finalTail), if later == [] then finalFill else 1);
      dec.arith.Restart(nextRestartNum, place, plan);
      nextRestartNum := (nextRestartNum + 1) % 8;
      dec.Reset();
      restartsToGo := restartInterval;
      EnterInterval();
    }

    /** The ghost part of a restart: the next interval becomes the current one. */
    ghost method EnterInterval()
      requires segments != [] && AllHolding(dec.scan, r, segments, intervals)
      requires |intervals| > 0 && Holding(dec.scan, r, segments[0], intervals[0])
      requires Terminator(finalTail, finalFill) && dec.arith.Valid()
      requires dec.arith.tail == Following(segments[1..], marker + 1, finalTail)
      requires dec.arith.fill == (if segments[1..] == [] then finalFill else 1)
      requires dec.arith.pending == ScanPlan(dec.scan, r, StartDc(dec.scan), intervals[0])
      requires !dec.failed && dec.Matches(StartDc(dec.scan))
      requires nextRestartNum == (marker + 1) % 8 && restartInterval != 0 && restartsToGo == restartInterval
      requires FullIntervals(restartInterval, intervals)
      modifies this`done, this`mcus, this`intervals, this`segments, this`marker
      ensures Valid() && mcus == old(intervals)[0] && intervals == old(intervals)[1..] && done == []
    {
      hide Decoder.Valid, Decoder.SourceOk, Inside, Run, ScanPlan, StartDc, ScanFollows, ScanState, Stuff, Terminator,
        Following, FullIntervals, McuDecoder.Matches, AllHolding;
      HoldingNext(dec.scan, r, segments, intervals);
      NextInterval(restartInterval, intervals);
      dec.arith.SourceIsOk();
      assert dec.arith.pending + [] == dec.arith.pending;
      NothingYet(dec.scan, r);
      done, mcus, intervals, segments, marker := [], intervals[0], intervals[1..], segments[1..], marker + 1;
    }

    /** A restart is due exactly at the end of an interval that is not the last. */
    lemma RestartIfDone()
      requires Valid() && Rest() != []
      ensures RestartDue() ==> mcus == [] && intervals != [] && segments != []
      ensures !RestartDue() ==> mcus != []
      ensures |segments| == |intervals|
      ensures intervals != [] ==> |intervals[0]| > 0
    {
      hide InFile, InSegment, Holding;
      if mcus == [] && intervals == [] {
        JoinedNone<seq<Block>>();
      }
    }

    /** Decodes one MCU, after a restart if one is due. After an error the rest of the interval is left as it is. */
    method DecodeMcu(data: seq<Block>, ghost next: seq<Block>, ghost more: seq<seq<Block>>, ghost levels: seq<seq<int>>)
        returns (out: seq<Block>)
      requires Valid() && Rest() == [next] + more
      requires HoldAll(data, next, levels) && (forall i :: 0 <= i < |levels| ==> LevelsOk(levels[i]))
        && LevelsReady(r, levels)
      modifies this, dec, dec.arith
      ensures Valid() && Rest() == more
      ensures done == (if old(RestartDue()) then [] else old(done)) + [next]
      ensures McusOk(dec.scan, done) && r.Ok(dec.scan) && DcStateOk(dec.scan, StartDc(dec.scan))
      ensures dec.failed <==> !ScanFollows(dec.scan, r, StartDc(dec.scan), done)
      ensures |out| == |next|
      ensures dec.failed && !r.Baseline? ==> r.FirstDc? && HoldAll(out, next, LoseAll(levels))
      ensures !dec.failed ==> HoldAll(out, next, RaiseAll(levels, r.First(), r.Last(), r.Low()))
    {
      hide Valid, HoldAll, LevelsReady, RaiseAll, LoseAll, Joined, ScanFollows, StartDc;
      RestartIfDone();
      if restartInterval != 0 {
        if restartsToGo == 0 {
          JoinedFirst(intervals);
          ProcessRestart();
        }
      }
      assert Rest() == [next] + more;
      FirstOf(mcus, Joined(intervals), next, more);
      out := DecodeNext(data, levels);
    }

    method DecodeNext(data: seq<Block>, ghost levels: seq<seq<int>>) returns (out: seq<Block>)
      requires Valid() && mcus != []
      requires HoldAll(data, mcus[0], levels) && LevelsReady(r, levels)
      modifies this, dec, dec.arith
      ensures Valid() && intervals == old(intervals)
      ensures done == old(done) + [old(mcus)[0]] && mcus == old(mcus)[1..]
      ensures McusOk(dec.scan, done) && r.Ok(dec.scan) && DcStateOk(dec.scan, StartDc(dec.scan))
      ensures dec.failed <==> !ScanFollows(dec.scan, r, StartDc(dec.scan), done)
      ensures |out| == |old(mcus)[0]|
      ensures dec.failed && !r.Baseline? ==> r.FirstDc? && HoldAll(out, old(mcus)[0], LoseAll(levels))
      ensures !dec.failed ==> HoldAll(out, old(mcus)[0], RaiseAll(levels, r.First(), r.Last(), r.Low()))
    {
      hide Decoder.Valid, HoldAll, LevelsReady, RaiseAll, LoseAll, ScanFollows, ScanState, ScanPlan, McuPlan, McuNext,
        McuFollows, StartDc, AllHolding, Following, Terminator, FullIntervals, McuDecoder.Matches, Decoder.SourceOk;
      ghost var scan, next := dec.scan, mcus[0];
      ghost var start := StartDc(scan);
      ghost var s := ScanState(scan, r, start, done);
      ScanSnoc(scan, r, start, done, next);
      out := data;
      OnlyDcFails(scan, r, done + [next]);
      DataLost(data, next, levels);
      if !dec.failed {
        ghost var t := McuNext(scan, r, s, next);
        ScanStep(scan, r, s, mcus, 0);
        assert mcus[0..] == mcus;
        ghost var rest := ScanPlan(scan, r, t, mcus[1..]) + [];
        Assoc(McuPlan(scan, r, s, next), ScanPlan(scan, r, t, mcus[1..]), []);
        out := DecodeOne(dec, r, data, s, next, levels, rest);
        dec.arith.SourceIsOk();
        assert [] + rest == rest;
      }
      done, mcus := done + [next], mcus[1..];
      if restartInterval != 0 {
        restartsToGo := restartsToGo - 1;
      }
    }
  }

  // ---- whole scans ----

  /** The i-th MCU reaches the decoder: no DC difference in its interval so far is too large to follow. */
  predicate Arrives(scan: Scan, r: Routine, restartInterval: nat, mcus: seq<seq<Block>>, i: nat)
    requires r.Ok(scan) && McusOk(scan, mcus) && i < |mcus|
  {
    ScanFollows(scan, r, StartDc(scan), mcus[IntervalStart(restartInterval, i)..i + 1])
  }

  predicate AllArrive(scan: Scan, r: Routine, restartInterval: nat, mcus: seq<seq<Block>>)
    requires r.Ok(scan) && McusOk(scan, mcus)
  {
    forall i :: 0 <= i < |mcus| ==> Arrives(scan, r, restartInterval, mcus, i)
  }

  /** The MCUs passed in this interval, when i have been passed in all. */
  predicate Passed(restartInterval: nat, mcus: seq<seq<Block>>, i: nat, done: seq<seq<Block>>)
    requires i <= |mcus|
  {
    if i == 0 then done == [] else done == mcus[IntervalStart(restartInterval, i - 1)..i]
  }

  lemma PassedNone(restartInterval: nat, mcus: seq<seq<Block>>)
    ensures Passed(restartInterval, mcus, 0, [])
  {
  }

  lemma PassedNext(restartInterval: nat, togo: int, mcus: seq<seq<Block>>, i: nat, done: seq<seq<Block>>)
    requires i < |mcus| && Passed(restartInterval, mcus, i, done)
    requires restartInterval != 0 ==> togo + |done| == restartInterval
    ensures var due := restartInterval != 0 && togo == 0;
      Passed(restartInterval, mcus, i + 1, (if due then [] else done) + [mcus[i]])
  {
    if i > 0 && restartInterval != 0 {
      IntervalGoesOn(restartInterval, i - 1);
    }
  }

  lemma PassedArrives(scan: Scan, r: Routine, restartInterval: nat, mcus: seq<seq<Block>>, i: nat, done: seq<seq<Block>>)
    requires r.Ok(scan) && McusOk(scan, mcus) && i < |mcus| && Passed(restartInterval, mcus, i + 1, done)
    ensures McusOk(scan, done)
    ensures Arrives(scan, r, restartInterval, mcus, i) <==> ScanFollows(scan, r, StartDc(scan), done)
  {
    hide ScanFollows;
  }

  /**
    Sequential mode, in restart intervals: every MCU is decoded as it was encoded, except those from a DC difference that
    is larger than a decoder follows up to the end of that interval. A warning is given just when there are any.
  */
  method SequentialRoundTrip(scan: Scan, restartInterval: nat, mcus: seq<seq<Block>>, marker: byte)
      returns (warned: bool, out: seq<seq<Block>>)
    requires ScanOk(scan) && McusOk(scan, mcus) && Marker(marker)
    ensures |out| == |mcus|
    ensures forall i :: 0 <= i < |mcus| && Arrives(scan, Baseline, restartInterval, mcus, i) ==> out[i] == mcus[i]
    ensures warned <==> !AllArrive(scan, Baseline, restartInterval, mcus)
  {
    hide ScanDecoder.Valid, ScanFollows, Encoded, WithMarkers, Stuff, Joined, StartDc, Arrives, HoldAll, RaiseAll,
      Unsent, Passed;
    var bytes, intervals, segments := EncodeScan(scan, Baseline, restartInterval, mcus);
    var tail: seq<byte> := [0xFF, marker];
    var dec := new ScanDecoder(bytes + tail, scan, Baseline, restartInterval, intervals, segments, tail, 1);
    warned, out := false, [];
    assert mcus[0..] == mcus;
    PassedNone(restartInterval, mcus);
    for i := 0 to |mcus|
      invariant fresh(dec) && fresh(dec.dec) && fresh(dec.dec.arith)
      invariant dec.dec.scan == scan && dec.r == Baseline && dec.restartInterval == restartInterval
      invariant dec.Valid() && dec.Rest() == mcus[i..]
      invariant Passed(restartInterval, mcus, i, dec.done)
      invariant |out| == i
      invariant forall j :: 0 <= j < i && Arrives(scan, Baseline, restartInterval, mcus, j) ==> out[j] == mcus[j]
      invariant warned <==> exists j :: 0 <= j < i && !Arrives(scan, Baseline, restartInterval, mcus, j)
    {
      dec.Counts();
      PassedNext(restartInterval, dec.restartsToGo, mcus, i, dec.done);
      ZeroIsUnsent(mcus[i]);
      var blocks := dec.DecodeMcu(seq(|scan.membership|, _ => ZERO_BLOCK), mcus[i], mcus[i + 1..], Unsent(|mcus[i]|));
      PassedArrives(scan, Baseline, restartInterval, mcus, i, dec.done);
      SentIsExact(blocks, mcus[i]);
      if dec.dec.failed {
        warned := true;
      }
      out := out + [blocks];
    }
  }

  /** Two blocks of one component with DC values 0x7FFF and -0x8000: the second difference cannot be followed. */
  lemma UnfollowedInstance(scan: Scan, r: Routine, a: Block, b: Block)
    requires (r == Baseline || r == FirstDc(0)) && r.Ok(scan) && scan.membership == [0]
    requires a[0] == 0x7FFF && b[0] == -0x8000
    ensures McusOk(scan, [[a], [b]]) && Arrives(scan, r, 0, [[a], [b]], 0)
    ensures !Arrives(scan, r, 0, [[a], [b]], 1) && !AllArrive(scan, r, 0, [[a], [b]])
  {
    var mcus, s := [[a], [b]], StartDc(scan);
    var mode := if r == Baseline then Sequential else DcFirst(0);
    assert mcus[0..1] == [[a]] && mcus[0..2] == mcus;
    assert [[a]][1..] == [] && mcus[1..] == [[b]] && [[b]][1..] == [];
    assert Pow2(0) == 1;
    OneBlock(scan, mode, s, a);
    var t := AfterDc(scan, s, 0, 0x7FFF);
    OneBlock(scan, mode, t, b);
    hide McuFits, McuState, AfterDc;
    assert McuFollows(scan, r, s, [a]) && McuNext(scan, r, s, [a]) == t && !McuFollows(scan, r, t, [b]);
    assert ScanFollows(scan, r, s, [[a]]) && !ScanFollows(scan, r, s, mcus);
  }

  lemma OneBlock(scan: Scan, mode: Mode, s: DcState, b: Block)
    requires ScanOk(scan) && DcStateOk(scan, s) && |scan.comps| > 0
    ensures McuFits(scan, mode, s, [0], [b]) <==> DiffFits(DcValue(mode, b) - s.last[0])
    ensures McuState(scan, mode, s, [0], [b]) == AfterDc(scan, s, 0, DcValue(mode, b))
  {
    assert [0][1..] == [] && [b][1..] == [];
  }
}
