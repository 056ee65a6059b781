/**
  Compression passes: the master control of jcmaster.c, and the loop of jpeg_finish_compress in jcapimin.c that runs
  the passes that are left.
*/
module PassControl {
  import opened ScanScript

  const C_MAX_BLOCKS_IN_MCU: nat := 10

  /** What a run does that can be seen from outside: headers, and passes over the data of a scan. */
  datatype Event = FrameHeader | ScanHeader(scan: ScanInfo) | Statistics(scan: ScanInfo) | Output(scan: ScanInfo)

  datatype PassType = MainPass | HuffOptPass | OutputPass

  datatype Script = NoScript | Script(scans: seq<ScanInfo>)

  /** Parameters of a run; blocks are those of each component in an interleaved MCU. */
  datatype Config = Config(blocks: seq<nat>, script: Script, optimizeAsked: bool, arith: bool, transcode: bool) {
    predicate Ok() {
      && |blocks| >= 1 && (forall i :: 0 <= i < |blocks| ==> blocks[i] >= 1)
      && (script.Script? ==> ScriptOk(|blocks|, script.scans))
    }

    /** Every scan has components of the image, and the first one is not a refinement. */
    lemma ScansAccepted(k: nat)
      requires Ok() && k < |Scans()|
      ensures var s := Scans()[k]; |s.comps| > 0 && forall i :: 0 <= i < |s.comps| ==> 0 <= s.comps[i] < |blocks|
      ensures k == 0 ==> !NoTable(Scans()[k])
    {
      if script.Script? {
        var scans := script.scans;
        assert ScanOk(|blocks|, Progressive(scans), scans[..k], scans[k]);
        if k == 0 && Progressive(scans) {
          assert scans[..0] == [];
          assert ComponentFollows([], scans[0], scans[0].comps[0]);
          assert Continues(Level([], scans[0].comps[0], scans[0].ss), scans[0]);
        }
      }
    }

    /** The scans to send: those of the script, or all components at once. */
    function Scans(): (r: seq<ScanInfo>)
      requires Ok()
      ensures |r| >= 1
    {
      if script.Script? then script.scans else [ScanInfo(seq(|blocks|, i => i), 0, 63, 0, 0)]
    }

    /** Progressive mode needs its own Huffman tables. */
    function Optimize(): bool
      requires Ok()
    {
      optimizeAsked || (script.Script? && Progressive(script.scans) && !arith)
    }

    /** A scan has one component, or few enough components and blocks for an MCU. */
    predicate SetupOk(s: ScanInfo) {
      && (forall i :: 0 <= i < |s.comps| ==> 0 <= s.comps[i] < |blocks|)
      && |s.comps| <= MAX_COMPS_IN_SCAN && (|s.comps| == 1 || |Membership(s.comps)| <= C_MAX_BLOCKS_IN_MCU)
    }

    /** The blocks of an interleaved MCU, by index of the component in the scan. */
    function Membership(comps: seq<int>): seq<nat> {
      if comps == [] then []
      else
        var ci: nat := |comps| - 1;
        Membership(comps[..ci]) + seq(if 0 <= comps[ci] < |blocks| then blocks[comps[ci]] else 0, _ => ci)
    }

    /** What the MCUs of a scan consist of. */
    function McuOf(s: ScanInfo): seq<nat> {
      if |s.comps| == 1 then [0] else Membership(s.comps)
    }

    /** Huffman coding without a table: DC refinement. */
    predicate NoTable(s: ScanInfo) {
      s.ss == 0 && s.ah != 0
    }

    /** The events of one scan. */
    function ScanEvents(k: nat): seq<Event>
      requires Ok() && k < |Scans()|
    {
      var s := Scans()[k];
      (if Optimize() && !NoTable(s) then [Statistics(s)] else [])
      + ((if k == 0 then [FrameHeader] else []) + [ScanHeader(s), Output(s)])
    }

    /** The events of the first k scans. */
    function Events(k: nat): seq<Event>
      requires Ok() && k <= |Scans()|
    {
      if k == 0 then [] else Events(k - 1) + ScanEvents(k - 1)
    }

    /** The run can be completed. */
    predicate Feasible()
      requires Ok()
    {
      && (script.NoScript? ==> |blocks| <= MAX_COMPS_IN_SCAN)
      && (forall k :: 0 <= k < |Scans()| ==> SetupOk(Scans()[k]))
      && !(arith && Optimize())
    }
  }

  class Master {
    const config: Config
    const optimizeCoding: bool
    const totalPasses: nat
    var passType: PassType
    var passNumber: nat             // passes completed
    var scanNumber: nat             // current index in the script
    var isLastPass: bool
    var callPassStartup: bool

    var cur: ScanInfo               // scan parameters in force
    var membership: seq<nat>        // MCU_membership
    var gathering: bool             // what the entropy coder was told at the start of the pass
    var log: seq<Event>

    ghost predicate Sized()
      reads this
    {
      && config.Ok() && optimizeCoding == config.Optimize()
      && totalPasses == (if optimizeCoding then 2 * |config.Scans()| else |config.Scans()|)
    }

    /** The parameters of the current scan are in force. */
    ghost predicate InForce()
      requires Sized()
      reads this
    {
      scanNumber < |config.Scans()| && cur == config.Scans()[scanNumber] && config.SetupOk(cur)
      && membership == config.McuOf(cur)
    }

    /** The run may go on, and the first k scans had permitted MCUs. */
    ghost predicate Started(k: nat)
      requires config.Ok() && k <= |config.Scans()|
      reads this
    {
      && !(config.arith && optimizeCoding) && (config.script.NoScript? ==> |config.blocks| <= MAX_COMPS_IN_SCAN)
      && forall i :: 0 <= i < k ==> config.SetupOk(config.Scans()[i])
    }

    /** Between passes. */
    ghost predicate Valid()
      reads this
    {
      && Sized() && scanNumber <= |config.Scans()|
      && (isLastPass <==> passNumber == totalPasses)
      && (passNumber > 0 ==> Started(scanNumber))
      && match passType
         case MainPass => passNumber == scanNumber == 0 && log == []
         case HuffOptPass => optimizeCoding && passNumber == 2 * scanNumber && log == config.Events(scanNumber)
         case OutputPass =>
           if optimizeCoding then
             passNumber == 2 * scanNumber + 1 && InForce() && log == config.Events(scanNumber) + [Statistics(cur)]
               && !config.NoTable(cur)
           else passNumber == scanNumber && log == config.Events(scanNumber)
    }

    /** jinit_c_master_control. */
    constructor (config: Config)
      requires config.Ok()
      ensures Valid() && this.config == config && log == [] && !isLastPass && passNumber == 0
      ensures config.transcode <==> passType != MainPass
    {
      this.config := config;
      isLastPass, callPassStartup := false, false;
      optimizeCoding := config.Optimize();
      if config.transcode {
        passType := if config.Optimize() then HuffOptPass else OutputPass;
      } else {
        passType := MainPass;
      }
      scanNumber, passNumber := 0, 0;
      totalPasses := if config.Optimize() then |config.Scans()| * 2 else |config.Scans()|;
      cur, membership, gathering, log := ScanInfo([], 0, 0, 0, 0), [], false, [];
    }

    /** Sets up the scan parameters for the current scan. */
    method SelectScanParameters() returns (ok: bool)
      requires Sized() && scanNumber < |config.Scans()|
      modifies this`cur
      ensures ok <==> (config.script.NoScript? ==> |config.blocks| <= MAX_COMPS_IN_SCAN)
      ensures ok ==> cur == config.Scans()[scanNumber]
    {
      ok := true;
      if config.script.Script? {
        cur := config.script.scans[scanNumber];
      } else {
        if |config.blocks| > MAX_COMPS_IN_SCAN {
          return false;
        }
        cur := ScanInfo(seq(|config.blocks|, i => i), 0, 63, 0, 0);
      }
    }

    /** The MCUs of the scan. */
    method PerScanSetup() returns (ok: bool)
      requires Sized() && forall i :: 0 <= i < |cur.comps| ==> 0 <= cur.comps[i] < |config.blocks|
      modifies this`membership
      ensures ok <==> config.SetupOk(cur) && |cur.comps| > 0
      ensures ok ==> membership == config.McuOf(cur)
    {
      if |cur.comps| == 1 {
        membership := [0];
        return true;
      }
      if |cur.comps| <= 0 || |cur.comps| > MAX_COMPS_IN_SCAN {
        return false;
      }
      membership := [];
      assert cur.comps[..0] == [];
      for ci := 0 to |cur.comps|
        invariant membership == config.Membership(cur.comps[..ci]) && |membership| <= C_MAX_BLOCKS_IN_MCU
      {
        var mcublks := config.blocks[cur.comps[ci]];
        assert cur.comps[..ci + 1][..ci] == cur.comps[..ci];
        if |membership| + mcublks > C_MAX_BLOCKS_IN_MCU {
          LongerMembership(cur.comps, ci + 1);
          return false;
        }
        ghost var before := membership;
        while mcublks > 0
          invariant 0 <= mcublks <= config.blocks[cur.comps[ci]]
          invariant membership == before + seq(config.blocks[cur.comps[ci]] - mcublks, _ => ci)
        {
          membership := membership + [ci];
          mcublks := mcublks - 1;
        }
      }
      assert cur.comps[..|cur.comps|] == cur.comps;
      ok := true;
    }

    lemma {:induction false} LongerMembership(comps: seq<int>, n: nat)
      requires n <= |comps|
      ensures |config.Membership(comps[..n])| <= |config.Membership(comps)|
      decreases |comps|
    {
      if n < |comps| {
        LongerMembership(comps[..|comps| - 1], n);
        assert comps[..|comps| - 1][..n] == comps[..n];
      } else {
        assert comps[..n] == comps;
      }
    }

    /** Both, at the start of a scan. */
    method SetUpScan() returns (ok: bool)
      requires Sized() && scanNumber < |config.Scans()|
      modifies this`cur, this`membership
      ensures ok <==>
        config.SetupOk(config.Scans()[scanNumber]) && (config.script.NoScript? ==> |config.blocks| <= MAX_COMPS_IN_SCAN)
      ensures ok ==> InForce()
    {
      hide Config.SetupOk, Config.McuOf, Config.Optimize, Config.Ok;
      config.ScansAccepted(scanNumber);
      ok := SelectScanParameters();
      if ok {
        ok := PerScanSetup();
      }
    }

    /** The entropy coder is told whether to gather statistics; arithmetic coding has no such pass. */
    method StartEntropy(gather: bool) returns (ok: bool)
      modifies this`gathering
      ensures ok <==> !(gather && config.arith)
      ensures gathering == gather
    {
      gathering := gather;
      ok := !(gather && config.arith);
    }

    /** What has been written before the data of a pass; in the main pass headers come with the first data. */
    ghost predicate Running()
      reads this
    {
      && Sized() && InForce() && passNumber < totalPasses && Started(scanNumber)
      && gathering == (passType == HuffOptPass || (passType == MainPass && optimizeCoding))
      && (gathering ==> optimizeCoding && !config.NoTable(cur))
      && callPassStartup == (passType == MainPass && !optimizeCoding)
      && match passType
         case MainPass => passNumber == scanNumber == 0 && log == []
         case HuffOptPass => passNumber == 2 * scanNumber && log == config.Events(scanNumber)
         case OutputPass =>
           && passNumber == (if optimizeCoding then 2 * scanNumber + 1 else scanNumber)
           && log == config.Events(scanNumber) + Gathered() + Headers()
    }

    ghost predicate InPass()
      reads this
    {
      Running() && (isLastPass <==> passNumber == totalPasses - 1)
    }

    ghost function Gathered(): seq<Event>
      reads this
    {
      if optimizeCoding && !config.NoTable(cur) then [Statistics(cur)] else []
    }

    ghost function Headers(): seq<Event>
      reads this
    {
      (if scanNumber == 0 then [FrameHeader] else []) + [ScanHeader(cur)]
    }

    /** prepare_for_pass. */
    method PrepareForPass() returns (ok: bool)
      requires Valid() && !isLastPass
      modifies this
      ensures (ok ==> InPass()) && (!ok ==> !config.Feasible())
      ensures (passType == MainPass <==> old(passType) == MainPass) && passNumber >= old(passNumber)
    {
      hide Config.SetupOk, Config.McuOf, Config.Optimize, Config.Ok, Config.Events, Config.NoTable;
      if passType == MainPass {
        ok := PrepareMainPass();
      } else {
        ok := PrepareLaterPass();
      }
      if ok {
        isLastPass := passNumber == totalPasses - 1;
      }
    }

    method PrepareMainPass() returns (ok: bool)
      requires Valid() && passType == MainPass
      modifies this`cur, this`membership, this`gathering, this`callPassStartup
      ensures (ok ==> Running()) && (!ok ==> !config.Feasible())
    {
      hide Config.SetupOk, Config.McuOf, Config.Optimize, Config.Ok, Config.Events;
      config.ScansAccepted(0);
      ok := SetUpScan();
      if ok {
        ok := StartEntropy(optimizeCoding);
        callPassStartup := !optimizeCoding;
      }
    }

    /** The passes after the main pass, and all passes in transcoding. */
    method PrepareLaterPass() returns (ok: bool)
      requires Valid() && !isLastPass && passType != MainPass
      modifies this`cur, this`membership, this`gathering, this`callPassStartup, this`passType, this`passNumber, this`log
      ensures (ok ==> Running()) && (!ok ==> !config.Feasible())
      ensures passType != MainPass && passNumber >= old(passNumber)
    {
      hide Config.SetupOk, Config.McuOf, Config.Optimize, Config.Ok, Config.Events;
      if passType == HuffOptPass {
        ok := SetUpScan();
        if !ok {
          return;
        }
        if cur.ss != 0 || cur.ah == 0 || config.arith {
          ok := StartEntropy(true);
          callPassStartup := false;
          return;
        }
        passType := OutputPass;
        passNumber := passNumber + 1;
      }
      if !optimizeCoding {
        ok := SetUpScan();
        if !ok {
          return;
        }
      }
      ok := StartEntropy(false);
      if scanNumber == 0 {
        log := log + [FrameHeader];
      }
      log := log + [ScanHeader(cur)];
      callPassStartup := false;
    }

    /** pass_startup. */
    method PassStartup()
      requires callPassStartup
      modifies this`callPassStartup, this`log
      ensures !callPassStartup && log == old(log) + [FrameHeader, ScanHeader(cur)]
    {
      callPassStartup := false;
      log := log + [FrameHeader];
      log := log + [ScanHeader(cur)];
    }

    /** After the data of a pass. */
    ghost predicate Coded()
      reads this
    {
      && Sized() && InForce() && passNumber < totalPasses && Started(scanNumber)
      && (isLastPass <==> passNumber == totalPasses - 1)
      && match passType
         case MainPass =>
           && passNumber == scanNumber == 0
           && if optimizeCoding then log == config.Events(0) + [Statistics(cur)] && !config.NoTable(cur)
             else log == config.Events(1)
         case HuffOptPass =>
           && optimizeCoding && !config.NoTable(cur)
           && passNumber == 2 * scanNumber && log == config.Events(scanNumber) + [Statistics(cur)]
         case OutputPass =>
           && passNumber == (if optimizeCoding then 2 * scanNumber + 1 else scanNumber)
           && log == config.Events(scanNumber + 1)
    }

    /** The data of a pass goes to the entropy coder. */
    method ProcessData()
      requires InPass()
      modifies this`callPassStartup, this`log
      ensures Coded()
    {
      hide Config.SetupOk, Config.McuOf, Config.Optimize, Config.Ok, Config.Events, Config.NoTable;
      EventsStep(scanNumber);
      if callPassStartup {
        PassStartup();
      }
      log := log + [if gathering then Statistics(cur) else Output(cur)];
    }

    lemma EventsStep(k: nat)
      requires config.Ok() && k < |config.Scans()|
      ensures config.Events(0) == []
      ensures var s := config.Scans()[k];
        config.Events(k + 1)
        == config.Events(k) + (if config.Optimize() && !config.NoTable(s) then [Statistics(s)] else [])
           + ((if k == 0 then [FrameHeader] else []) + [ScanHeader(s)]) + [Output(s)]
    {
      hide Config.Optimize, Config.Ok, Config.NoTable;
    }

    /** finish_pass_master. */
    method FinishPass()
      requires Coded()
      modifies this`passType, this`scanNumber, this`passNumber
      ensures Valid() && passNumber == old(passNumber) + 1 && passType != MainPass
    {
      hide Config.SetupOk, Config.McuOf, Config.Optimize, Config.Ok, Config.Events, Config.NoTable;
      match passType {
        case MainPass =>
          passType := OutputPass;
          if !optimizeCoding {
            scanNumber := scanNumber + 1;
          }
        case HuffOptPass =>
          passType := OutputPass;
        case OutputPass =>
          if optimizeCoding {
            passType := HuffOptPass;
          }
          scanNumber := scanNumber + 1;
      }
      passNumber := passNumber + 1;
    }
  }

  /**
    A whole compression: the first pass if there is one, then the loop of jpeg_finish_compress. It can be completed
    just when every scan has a permitted MCU and arithmetic coding is not to be optimized; then each scan has been
    output once, in order, after its own headers, and after its own statistics where it needs a table.
  */
  method Compress(config: Config) returns (ok: bool, log: seq<Event>)
    requires config.Ok()
    ensures ok <==> config.Feasible()
    ensures ok ==> log == config.Events(|config.Scans()|)
  {
    hide Config.SetupOk, Config.McuOf, Config.Optimize, Config.Ok, Config.Events, Config.NoTable;
    log := [];
    var m := new Master(config);
    if !config.transcode {
      ok := m.PrepareForPass();
      if !ok {
        return;
      }
      m.ProcessData();
      m.FinishPass();
    }
    while !m.isLastPass
      invariant fresh(m) && m.Valid() && m.config == config && m.passType != MainPass && m.passNumber <= m.totalPasses
      decreases m.totalPasses - m.passNumber
    {
      ok := m.PrepareForPass();
      if !ok {
        return;
      }
      m.ProcessData();
      m.FinishPass();
    }
    ok, log := true, m.log;
  }

  // ---- what the events of a run say ----

  /** The scans whose data was output. */
  function Outputs(log: seq<Event>): seq<ScanInfo> {
    if log == [] then []
    else Outputs(log[..|log| - 1]) + if log[|log| - 1].Output? then [log[|log| - 1].scan] else []
  }

  lemma {:induction false} OutputsSum(a: seq<Event>, b: seq<Event>)
    ensures Outputs(a + b) == Outputs(a) + Outputs(b)
  {
    if b == [] {
      assert a + b == a;
    } else {
      OutputsSum(a, b[..|b| - 1]);
      assert (a + b)[..|a + b| - 1] == a + b[..|b| - 1];
    }
  }

  /** Each scan is output exactly once, in script order. */
  lemma {:induction false} EachScanOnce(c: Config, k: nat)
    requires c.Ok() && k <= |c.Scans()|
    ensures Outputs(c.Events(k)) == c.Scans()[..k]
  {
    hide Config.Ok, Config.Optimize, Config.NoTable;
    if k > 0 {
      EachScanOnce(c, k - 1);
      OutputsSum(c.Events(k - 1), c.ScanEvents(k - 1));
      OneOutput(c, k - 1);
      assert c.Scans()[..k] == c.Scans()[..k - 1] + [c.Scans()[k - 1]];
    }
  }

  lemma OneOutput(c: Config, k: nat)
    requires c.Ok() && k < |c.Scans()|
    ensures Outputs(c.ScanEvents(k)) == [c.Scans()[k]]
  {
    hide Config.Ok, Config.Optimize, Config.NoTable;
    var s := c.Scans()[k];
    var statistics := if c.Optimize() && !c.NoTable(s) then [Statistics(s)] else [];
    var frame := if k == 0 then [FrameHeader] else [];
    OutputsSum(statistics, frame + [ScanHeader(s), Output(s)]);
    OutputsSum(frame, [ScanHeader(s), Output(s)]);
    assert [ScanHeader(s), Output(s)][..1] == [ScanHeader(s)] && [ScanHeader(s)][..0] == [];
    assert Outputs([ScanHeader(s)]) == [];
    assert Outputs(statistics) == [] && Outputs(frame) == [];
  }

  /** Data is output right after the header of its scan, and headers of scans only after the frame header. */
  predicate EventInOrder(log: seq<Event>, i: nat)
    requires i < |log|
  {
    match log[i]
    case Output(scan) => i > 0 && log[i - 1] == ScanHeader(scan)
    case ScanHeader(_) => FrameHeader in log[..i]
    case FrameHeader => FrameHeader !in log[..i]
    case Statistics(_) => true
  }

  predicate InGoodOrder(log: seq<Event>) {
    forall i :: 0 <= i < |log| ==> EventInOrder(log, i)
  }

  lemma ScanEventsShape(c: Config, k: nat)
    requires c.Ok() && k < |c.Scans()|
    ensures var b, s := c.ScanEvents(k), c.Scans()[k];
      && |b| >= 2 && b[|b| - 1] == Output(s) && b[|b| - 2] == ScanHeader(s)
      && (k == 0 ==> |b| >= 3 && b[|b| - 3] == FrameHeader)
      && forall j :: 0 <= j < |b| - 2 ==> if k == 0 && j == |b| - 3 then b[j] == FrameHeader else b[j].Statistics?
  {
    hide Config.Ok, Config.Optimize, Config.NoTable, Config.Scans;
  }

  lemma {:induction false} HeadersFirst(c: Config, k: nat)
    requires c.Ok() && k <= |c.Scans()|
    ensures InGoodOrder(c.Events(k)) && (k > 0 ==> FrameHeader in c.Events(k))
  {
    hide Config.Ok, Config.Optimize, Config.NoTable, Config.Scans, Config.ScanEvents, InGoodOrder;
    if k == 0 {
      NoEventsInOrder();
    } else {
      HeadersFirst(c, k - 1);
      ScanEventsShape(c, k - 1);
      var a, b := c.Events(k - 1), c.ScanEvents(k - 1);
      if k == 1 {
        assert FrameHeader == (a + b)[|a| + |b| - 3];
      }
      GoodOrderSum(a, b, k - 1);
    }
  }

  lemma NoEventsInOrder()
    ensures InGoodOrder([])
  {
  }

  lemma GoodOrderSum(a: seq<Event>, b: seq<Event>, k: nat)
    requires InGoodOrder(a) && (if k == 0 then a == [] else FrameHeader in a)
    requires |b| >= 2 && b[|b| - 1].Output? && b[|b| - 2] == ScanHeader(b[|b| - 1].scan)
    requires k == 0 ==> |b| >= 3 && b[|b| - 3] == FrameHeader
    requires forall j :: 0 <= j < |b| - 2 ==> if k == 0 && j == |b| - 3 then b[j] == FrameHeader else b[j].Statistics?
    ensures InGoodOrder(a + b)
  {
    var log := a + b;
    forall i | 0 <= i < |log|
      ensures EventInOrder(log, i)
    {
      if i < |a| {
        assert EventInOrder(a, i);
        assert log[..i] == a[..i];
      } else {
        assert log[..i] == a + b[..i - |a|];
        assert log[i] == b[i - |a|];
        if log[i].Output? {
          assert i - |a| == |b| - 1 && log[i - 1] == b[|b| - 2];
        }
        if log[i].ScanHeader? && k == 0 {
          assert log[..i][i - 1] == FrameHeader;
        }
      }
    }
  }

  predicate IsHeader(e: Event) {
    e.FrameHeader? || e.ScanHeader?
  }

  /** The statistics pass of a scan comes before its output, with only headers between them. */
  predicate Prepares(log: seq<Event>, i: nat, j: nat)
    requires i < j < |log|
  {
    log[i].Statistics? && log[j] == Output(log[i].scan) && forall n :: i < n < j ==> IsHeader(log[n])
  }

  predicate Prepared(log: seq<Event>, j: nat)
    requires j < |log|
  {
    exists i :: 0 <= i < j && Prepares(log, i, j)
  }

  predicate Needed(log: seq<Event>, i: nat)
    requires i < |log|
  {
    exists j :: i < j < |log| && Prepares(log, i, j)
  }

  /** In an optimized run just the scans that need a table are output after a statistics pass of their own. */
  predicate StatisticsInOrder(c: Config, log: seq<Event>)
    requires c.Ok()
  {
    && (forall j :: 0 <= j < |log| && log[j].Output? && c.Optimize() && !c.NoTable(log[j].scan) ==> Prepared(log, j))
    && (forall i :: 0 <= i < |log| && log[i].Statistics? ==>
          c.Optimize() && !c.NoTable(log[i].scan) && Needed(log, i))
  }

  /** Each statistics pass is right before the headers and the output of its scan, and DC refinement has none. */
  lemma {:induction false} StatisticsFirst(c: Config, k: nat)
    requires c.Ok() && k <= |c.Scans()|
    ensures StatisticsInOrder(c, c.Events(k))
  {
    hide Config.Ok, Config.Optimize, Config.NoTable, Config.Scans, StatisticsInOrder, Config.ScanEvents;
    if k == 0 {
      NoEventsPrepared(c);
    } else {
      StatisticsFirst(c, k - 1);
      ScanPrepared(c, k - 1);
      PreparedSum(c, c.Events(k - 1), c.ScanEvents(k - 1));
    }
  }

  lemma NoEventsPrepared(c: Config)
    requires c.Ok()
    ensures StatisticsInOrder(c, [])
  {
  }

  lemma ScanPrepared(c: Config, k: nat)
    requires c.Ok() && k < |c.Scans()|
    ensures StatisticsInOrder(c, c.ScanEvents(k))
  {
    hide Config.Ok, Config.Optimize, Config.NoTable, Config.Scans;
    var log := c.ScanEvents(k);
    var s := c.Scans()[k];
    if c.Optimize() && !c.NoTable(s) {
      assert log[0] == Statistics(s) && log[|log| - 1] == Output(s);
      assert Prepares(log, 0, |log| - 1);
    }
  }

  lemma PreparedSum(c: Config, a: seq<Event>, b: seq<Event>)
    requires c.Ok() && StatisticsInOrder(c, a) && StatisticsInOrder(c, b)
    ensures StatisticsInOrder(c, a + b)
  {
    hide Config.Ok, Config.Optimize, Config.NoTable;
    var log := a + b;
    forall j | 0 <= j < |log| && log[j].Output? && c.Optimize() && !c.NoTable(log[j].scan)
      ensures Prepared(log, j)
    {
      if j < |a| {
        var i :| 0 <= i < j && Prepares(a, i, j);
        assert Prepares(log, i, j);
      } else {
        var i :| 0 <= i < j - |a| && Prepares(b, i, j - |a|);
        assert Prepares(log, |a| + i, j);
      }
    }
    forall i | 0 <= i < |log| && log[i].Statistics?
      ensures c.Optimize() && !c.NoTable(log[i].scan) && Needed(log, i)
    {
      if i < |a| {
        var j :| i < j < |a| && Prepares(a, i, j);
        assert Prepares(log, i, j);
      } else {
        var j :| i - |a| < j < |b| && Prepares(b, i - |a|, j);
        assert Prepares(log, i, |a| + j);
      }
    }
  }
}
