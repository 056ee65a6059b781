/** What a scan sends through the arithmetic coder, MCU by MCU, and the coder's own round trip for any decisions. */
module ArithScans {
  import opened Powers
  import opened ByteStream
  import opened CodeInterval
  import opened Coefficients
  import opened SuccessiveApproximation
  import opened ArithModel
  import opened ArithEncoder
  import opened ArithDecoder
  import opened ArithMcuEncoder
  import opened ArithMcuDecoder

  /** Which MCU routine start_pass selects. */
  datatype Routine =
    | Baseline
    | FirstDc(al: nat)
    | FirstAc(ss: nat, se: nat, al: nat)
    | RefineDc(al: nat)
    | RefineAc(ss: nat, se: nat, al: nat)
  {
    predicate Ok(scan: Scan) {
      && ScanOk(scan)
      && match this
         case Baseline => true
         case FirstDc(al) => al <= 13
         case RefineDc(al) => al <= 13
         case FirstAc(ss, se, al) => 1 <= ss <= se < 64 && |scan.membership| == 1 && |scan.comps| == 1
         case RefineAc(ss, se, al) => 1 <= ss <= se < 64 && |scan.membership| == 1 && |scan.comps| == 1
    }

    function First(): nat {
      match this
      case FirstAc(ss, _, _) => ss
      case RefineAc(ss, _, _) => ss
      case _ => 0
    }

    function Last(): (se: nat)
    {
      match this
      case Baseline => 63
      case FirstAc(_, se, _) => se
      case RefineAc(_, se, _) => se
      case _ => 0
    }

    function Low(): nat {
      if Baseline? then 0 else al
    }
  }

  predicate McuOk(scan: Scan, blocks: seq<Block>) {
    |blocks| == |scan.membership|
  }

  function McuPlan(scan: Scan, r: Routine, s: DcState, blocks: seq<Block>): seq<Decision>
    requires r.Ok(scan) && DcStateOk(scan, s) && McuOk(scan, blocks)
  {
    match r
    case Baseline => McuDecisions(scan, Sequential, s, scan.membership, blocks)
    case FirstDc(al) => McuDecisions(scan, DcFirst(al), s, scan.membership, blocks)
    case RefineDc(al) => DcBits(blocks, al)
    case FirstAc(ss, se, al) =>
      var tbl := scan.comps[0].acTbl;
      AcFrom(tbl, scan.cond.acK[tbl], Scaled(blocks[0], al), ss, se)
    case RefineAc(ss, se, al) => RefineFrom(scan.comps[0].acTbl, Scaled(blocks[0], al), ss, se)
  }

  function McuNext(scan: Scan, r: Routine, s: DcState, blocks: seq<Block>): (t: DcState)
    requires r.Ok(scan) && DcStateOk(scan, s) && McuOk(scan, blocks)
    ensures DcStateOk(scan, t)
  {
    match r
    case Baseline => McuState(scan, Sequential, s, scan.membership, blocks)
    case FirstDc(al) => McuState(scan, DcFirst(al), s, scan.membership, blocks)
    case _ => s
  }

  /** Every DC difference of the MCU has a magnitude a decoder can follow. */
  predicate McuFollows(scan: Scan, r: Routine, s: DcState, blocks: seq<Block>)
    requires r.Ok(scan) && DcStateOk(scan, s) && McuOk(scan, blocks)
  {
    match r
    case Baseline => McuFits(scan, Sequential, s, scan.membership, blocks)
    case FirstDc(al) => McuFits(scan, DcFirst(al), s, scan.membership, blocks)
    case _ => true
  }

  predicate McusOk(scan: Scan, mcus: seq<seq<Block>>) {
    forall i :: 0 <= i < |mcus| ==> McuOk(scan, mcus[i])
  }

  /** The decisions of a scan. */
  function ScanPlan(scan: Scan, r: Routine, s: DcState, mcus: seq<seq<Block>>): seq<Decision>
    requires r.Ok(scan) && DcStateOk(scan, s) && McusOk(scan, mcus)
    decreases |mcus|
  {
    if mcus == [] then []
    else McuPlan(scan, r, s, mcus[0]) + ScanPlan(scan, r, McuNext(scan, r, s, mcus[0]), mcus[1..])
  }

  predicate ScanFollows(scan: Scan, r: Routine, s: DcState, mcus: seq<seq<Block>>)
    requires r.Ok(scan) && DcStateOk(scan, s) && McusOk(scan, mcus)
    decreases |mcus|
  {
    mcus == [] ||
    (McuFollows(scan, r, s, mcus[0]) && ScanFollows(scan, r, McuNext(scan, r, s, mcus[0]), mcus[1..]))
  }

  lemma ScanStep(scan: Scan, r: Routine, s: DcState, mcus: seq<seq<Block>>, i: nat)
    requires r.Ok(scan) && DcStateOk(scan, s) && McusOk(scan, mcus) && i < |mcus|
    ensures var t := McuNext(scan, r, s, mcus[i]);
      && ScanPlan(scan, r, s, mcus[i..]) == McuPlan(scan, r, s, mcus[i]) + ScanPlan(scan, r, t, mcus[i + 1..])
      && (ScanFollows(scan, r, s, mcus[i..]) <==>
          McuFollows(scan, r, s, mcus[i]) && ScanFollows(scan, r, t, mcus[i + 1..]))
  {
    hide McuPlan, McuNext, McuFollows;
    assert mcus[i..][1..] == mcus[i + 1..];
  }

  /** Encodes one MCU by the routine of the scan. */
  method EncodeOne(enc: McuEncoder, r: Routine, blocks: seq<Block>)
    requires enc.Ready() && r.Ok(enc.scan) && McuOk(enc.scan, blocks)
    modifies enc, enc.arith
    ensures enc.Ready() && enc.arith.before == old(enc.arith.before)
    ensures enc.arith.coded == old(enc.arith.coded)
      + McuPlan(enc.scan, r, old(DcState(enc.lastDc, enc.dcContext)), blocks)
    ensures DcState(enc.lastDc, enc.dcContext)
         == McuNext(enc.scan, r, old(DcState(enc.lastDc, enc.dcContext)), blocks)
  {
    hide Encoder.Valid, McuDecisions, McuState, DcBits, AcFrom, RefineFrom;
    match r
    case Baseline => enc.EncodeMcu(blocks);
    case FirstDc(al) => enc.EncodeMcuDcFirst(blocks, al);
    case RefineDc(al) => enc.EncodeMcuDcRefine(blocks, al);
    case FirstAc(ss, se, al) => enc.EncodeMcuAcFirst(blocks[0], ss, se, al);
    case RefineAc(ss, se, al) => enc.EncodeMcuAcRefine(blocks[0], ss, se, al + 1, al);
  }

  /** A marker in the file, after one 0xFF. */
  predicate Marker(code: byte) {
    0 < code < 0xFF
  }

  // ---- single decisions ----

  /**
    The coder itself: for any decisions, what the decoder reads from the finished segment is what was encoded, and
    both sides end with the same statistics.
  */
  method DecisionRoundTrip(ds: seq<Decision>, marker: byte)
      returns (bits: seq<Bit>, encoded: Stats, decoded: Stats, bytes: seq<byte>)
    requires Marker(marker)
    ensures |bits| == |ds| && forall i :: 0 <= i < |ds| ==> bits[i] == ds[i].bit
    ensures encoded == decoded == Run(FRESH, ds).stats
    ensures exists data :: bytes == Stuff(data) && Inside(data, Run(FRESH, ds).iv)
  {
    hide Encoder.Valid, Decoder.Valid, Run, Inside, Stuff;
    var enc := new Encoder();
    for i := 0 to |ds|
      invariant fresh(enc) && enc.Valid() && enc.coded == ds[..i] && enc.before == []
    {
      enc.Encode(ds[i].bin, ds[i].bit);
    }
    assert ds[..|ds|] == ds;
    encoded := enc.stats;
    EncoderStats(enc);
    enc.Finish();
    ghost var data := enc.data;
    bytes := enc.out;
    assert [] + Stuff(data) == Stuff(data);
    ghost var tail: seq<byte> := [0xFF, marker];
    var dec := new Decoder(bytes + [0xFF, marker], data, tail, 1, ds);
    bits := [];
    assert ds[0..] == ds;
    for i := 0 to |ds|
      invariant fresh(dec) && dec.Valid() && dec.pending == ds[i..] && Normal(dec.state.iv)
      invariant Run(dec.state, ds[i..]) == Run(FRESH, ds)
      invariant |bits| == i && forall j :: 0 <= j < i ==> bits[j] == ds[j].bit
    {
      RunFirst(dec.state, ds, i);
      var bit := dec.Decode(ds[i].bin);
      bits := bits + [bit];
    }
    decoded := dec.stats;
    DecoderStats(dec);
    RunNothing(dec.state);
  }

  lemma RunFirst(s: Coded, ds: seq<Decision>, i: nat)
    requires Normal(s.iv) && i < |ds|
    ensures Run(s, ds[i..]) == Run(Step(s, ds[i]), ds[i + 1..]) && ds[i..][0] == ds[i] && ds[i..][1..] == ds[i + 1..]
  {
    hide Step;
  }

  lemma RunNothing(s: Coded)
    requires Normal(s.iv)
    ensures Run(s, []) == s
  {
  }

  lemma EncoderStats(enc: Encoder)
    requires enc.Valid()
    ensures enc.stats == Run(FRESH, enc.coded).stats
  {
    hide Run;
  }

  lemma DecoderStats(dec: Decoder)
    requires dec.Valid()
    ensures dec.stats == dec.state.stats
  {
    hide Run, Inside;
  }

  // ---- a sufficient condition on the values alone ----

  predicate SmallDc(blocks: seq<Block>) {
    forall i :: 0 <= i < |blocks| ==> Abs(blocks[i][0]) <= 0x4000
  }

  predicate SmallState(s: DcState) {
    forall i :: 0 <= i < |s.last| ==> Abs(s.last[i]) <= 0x4000
  }

  lemma HalvedIsSmall(v: int, p: nat)
    requires p >= 1 && Abs(v) <= 0x4000
    ensures Abs(v / p) <= 0x4000
  {
    var q := v / p;
    assert q * p <= v < q * p + p;
    if q > 0 {
      MulMonotone(1, p, q);
    } else if q < -1 {
      MulMonotone(1, p, 0 - q - 1);
      assert (0 - q - 1) * p == 0 - q * p - p;
    }
  }

  lemma {:induction false} SmallMcuFits(scan: Scan, mode: Mode, s: DcState, cis: seq<nat>, blocks: seq<Block>)
    requires ArithModel.ScanOk(scan) && DcStateOk(scan, s)
    requires |cis| == |blocks| && forall i :: 0 <= i < |cis| ==> cis[i] < |scan.comps|
    requires SmallDc(blocks) && SmallState(s)
    ensures McuFits(scan, mode, s, cis, blocks) && SmallState(McuState(scan, mode, s, cis, blocks))
    decreases |blocks|
  {
    hide Pow2;
    if blocks != [] {
      if mode.DcFirst? {
        HalvedIsSmall(blocks[0][0], Pow2(mode.al));
      }
      SmallMcuFits(scan, mode, AfterDc(scan, s, cis[0], DcValue(mode, blocks[0])), cis[1..], blocks[1..]);
    }
  }

  lemma SmallMcuFollows(scan: Scan, r: Routine, s: DcState, blocks: seq<Block>)
    requires r.Ok(scan) && DcStateOk(scan, s) && McuOk(scan, blocks)
    requires SmallState(s) && SmallDc(blocks)
    ensures McuFollows(scan, r, s, blocks) && SmallState(McuNext(scan, r, s, blocks))
  {
    hide McuFits, McuState, SmallDc, SmallState;
    match r
    case Baseline => SmallMcuFits(scan, Sequential, s, scan.membership, blocks);
    case FirstDc(al) => SmallMcuFits(scan, ArithModel.DcFirst(al), s, scan.membership, blocks);
    case _ =>
  }

  /** No decoder fails on DC values of magnitude at most 2^14, the largest that 12-bit samples give. */
  lemma {:induction false} SmallScanFollows(scan: Scan, r: Routine, s: DcState, mcus: seq<seq<Block>>)
    requires r.Ok(scan) && DcStateOk(scan, s) && McusOk(scan, mcus)
    requires SmallState(s) && forall i :: 0 <= i < |mcus| ==> SmallDc(mcus[i])
    ensures ScanFollows(scan, r, s, mcus)
    decreases |mcus|
  {
    hide McuFollows, McuNext, SmallDc, SmallState;
    if mcus != [] {
      SmallMcuFollows(scan, r, s, mcus[0]);
      SmallScanFollows(scan, r, McuNext(scan, r, s, mcus[0]), mcus[1..]);
    }
  }
}
