/**
  Progressive transmission with arithmetic coding: the scans of an accepted script, each encoded into a
  segment by the routines of jcarith.c and decoded into the coefficient arrays by those of jdarith.c.
*/
module ArithProgressive {
  import opened Powers
  import opened ByteStream
  import opened RestartIntervals
  import opened Coefficients
  import opened SuccessiveApproximation
  import opened ArithModel
  import opened ArithScans
  import opened ArithIntervals
  import Script = ScanScript
  import SimpleProgression

  type ScanInfo = Script.ScanInfo

  /**
    The coefficient arrays of all components, as numbered blocks: the component of each, and whether it
    belongs to the image or only pads the last MCUs of a row or column.
  */
  datatype Picture = Picture(blocks: seq<Block>, compOf: seq<nat>, inImage: seq<bool>) {
    predicate Ok() {
      |blocks| == |compOf| == |inImage|
    }
  }

  /** One scan of the script, with its tables, the blocks that its MCUs visit, and its restart interval. */
  datatype Pass = Pass(info: ScanInfo, scan: Scan, mcus: seq<seq<nat>>, restartInterval: nat)

  function RoutineOf(info: ScanInfo): Routine
    requires Script.BandOk(info)
  {
    if info.ah == 0 then
      if info.ss == 0 then FirstDc(info.al) else FirstAc(info.ss, info.se, info.al)
    else
      if info.ss == 0 then RefineDc(info.al) else RefineAc(info.ss, info.se, info.al)
  }

  predicate Visits(mcus: seq<seq<nat>>, n: nat, id: nat)
    requires n <= |mcus|
  {
    exists i :: 0 <= i < n && id in mcus[i]
  }

  /** No block is visited twice. */
  predicate Disjoint(mcus: seq<seq<nat>>) {
    forall i, j, i', j' :: 0 <= i < |mcus| && 0 <= j < |mcus[i]| && 0 <= i' < |mcus| && 0 <= j' < |mcus[i']| ==>
      mcus[i][j] == mcus[i'][j'] ==> i == i' && j == j'
  }

  /** The MCUs of a scan visit the blocks of its components; padding blocks only when several are interleaved. */
  predicate Covers(pic: Picture, info: ScanInfo, mcus: seq<seq<nat>>)
    requires pic.Ok()
  {
    && (forall i, j :: 0 <= i < |mcus| && 0 <= j < |mcus[i]| ==> mcus[i][j] < |pic.blocks|)
    && (forall i, j :: 0 <= i < |mcus| && 0 <= j < |mcus[i]| ==>
          if pic.inImage[mcus[i][j]] then pic.compOf[mcus[i][j]] in info.comps else |info.comps| > 1)
    && (forall id :: 0 <= id < |pic.blocks| && pic.inImage[id] && pic.compOf[id] in info.comps ==>
          Visits(mcus, |mcus|, id))
    && Disjoint(mcus)
  }

  predicate PassOk(pic: Picture, pass: Pass) {
    && pic.Ok() && Script.BandOk(pass.info) && RoutineOf(pass.info).Ok(pass.scan)
    && Covers(pic, pass.info, pass.mcus)
    && forall i :: 0 <= i < |pass.mcus| ==> |pass.mcus[i]| == |pass.scan.membership|
  }

  function Pick(blocks: seq<Block>, ids: seq<nat>): (r: seq<Block>)
    requires forall j :: 0 <= j < |ids| ==> ids[j] < |blocks|
    ensures |r| == |ids|
  {
    seq(|ids|, j requires 0 <= j < |ids| => blocks[ids[j]])
  }

  /** The blocks of a pass, MCU by MCU. */
  function Content(pic: Picture, pass: Pass): (r: seq<seq<Block>>)
    requires PassOk(pic, pass)
    ensures |r| == |pass.mcus| && McusOk(pass.scan, r)
    ensures forall i :: 0 <= i < |r| ==> r[i] == Pick(pic.blocks, pass.mcus[i])
  {
    seq(|pass.mcus|, i requires 0 <= i < |pass.mcus| => Pick(pic.blocks, pass.mcus[i]))
  }

  /** Every DC difference of the pass can be followed by a decoder. */
  predicate PassFollows(pic: Picture, pass: Pass)
    requires PassOk(pic, pass)
  {
    AllArrive(pass.scan, RoutineOf(pass.info), pass.restartInterval, Content(pic, pass))
  }

  // ---- what has been received ----

  /** The last bit sent of each coefficient of a block, but for a lost DC value; nothing is promised about padding. */
  function LevelsOf(pic: Picture, sent: seq<ScanInfo>, lost: set<nat>, id: nat): (r: seq<int>)
    requires pic.Ok() && id < |pic.blocks|
    ensures LevelsOk(r)
  {
    if pic.inImage[id] then
      seq(64, k requires 0 <= k < 64 => if k == 0 && id in lost then LOST else Script.Level(sent, pic.compOf[id], k))
    else []
  }

  function LevelsOfAll(pic: Picture, sent: seq<ScanInfo>, lost: set<nat>, ids: seq<nat>): (r: seq<seq<int>>)
    requires pic.Ok() && forall j :: 0 <= j < |ids| ==> ids[j] < |pic.blocks|
    ensures |r| == |ids| && forall j :: 0 <= j < |r| ==> r[j] == LevelsOf(pic, sent, lost, ids[j])
  {
    seq(|ids|, j requires 0 <= j < |ids| => LevelsOf(pic, sent, lost, ids[j]))
  }

  /** Every block received holds what the scans so far have sent of it. */
  predicate Received(pic: Picture, sent: seq<ScanInfo>, lost: set<nat>, received: seq<Block>) {
    pic.Ok() && |received| == |pic.blocks|
    && forall id :: 0 <= id < |received| ==> Claims(received[id], pic.blocks[id], LevelsOf(pic, sent, lost, id))
  }

  /** In the middle of a pass: the blocks of the first n MCUs are ahead of the others. */
  predicate Receiving(pic: Picture, sent: seq<ScanInfo>, lost: set<nat>, info: ScanInfo, mcus: seq<seq<nat>>, n: nat,
                      received: seq<Block>)
    requires n <= |mcus|
  {
    pic.Ok() && |received| == |pic.blocks|
    && forall id :: 0 <= id < |received| ==>
         Claims(received[id], pic.blocks[id],
           LevelsOf(pic, if Visits(mcus, n, id) then sent + [info] else sent, lost, id))
  }

  /** Levels of accepted scripts are bit positions. */
  ghost predicate Proper(sent: seq<ScanInfo>) {
    forall c, k :: Script.Level(sent, c, k) != LOST
  }

  lemma LiftIsLevel(pic: Picture, sent: seq<ScanInfo>, lost: set<nat>, info: ScanInfo, id: nat)
    requires pic.Ok() && id < |pic.blocks| && 0 <= info.ss && 0 <= info.se
    requires pic.inImage[id] ==> pic.compOf[id] in info.comps
    requires Proper(sent)
    ensures Lift(LevelsOf(pic, sent, lost, id), info.ss, info.se, info.al) == LevelsOf(pic, sent + [info], lost, id)
  {
    hide Script.Level;
    forall k | 0 <= k < 64
      ensures Script.Level(sent + [info], pic.compOf[id], k)
        == if Script.Touches(info, pic.compOf[id], k) then info.al else Script.Level(sent, pic.compOf[id], k)
    {
      Script.LevelStep(sent, info, pic.compOf[id], k);
    }
  }

  lemma LevelStays(pic: Picture, sent: seq<ScanInfo>, lost: set<nat>, info: ScanInfo, id: nat)
    requires pic.Ok() && id < |pic.blocks| && (pic.inImage[id] ==> pic.compOf[id] !in info.comps)
    ensures LevelsOf(pic, sent, lost, id) == LevelsOf(pic, sent + [info], lost, id)
  {
    hide Script.Level;
    forall k | 0 <= k < 64
      ensures Script.Level(sent + [info], pic.compOf[id], k)
        == if Script.Touches(info, pic.compOf[id], k) then info.al else Script.Level(sent, pic.compOf[id], k)
    {
      Script.LevelStep(sent, info, pic.compOf[id], k);
    }
  }

  lemma ReceivingStarts(pic: Picture, sent: seq<ScanInfo>, lost: set<nat>, info: ScanInfo, mcus: seq<seq<nat>>,
                        received: seq<Block>)
    requires Received(pic, sent, lost, received)
    ensures Receiving(pic, sent, lost, info, mcus, 0, received)
  {
    hide Claims, LevelsOf;
  }

  lemma ReceivingEnds(pic: Picture, sent: seq<ScanInfo>, lost: set<nat>, info: ScanInfo, mcus: seq<seq<nat>>,
                      received: seq<Block>)
    requires Receiving(pic, sent, lost, info, mcus, |mcus|, received) && Covers(pic, info, mcus)
    ensures Received(pic, sent + [info], lost, received)
  {
    hide Claims, LevelsOf;
    forall id | 0 <= id < |received|
      ensures Claims(received[id], pic.blocks[id], LevelsOf(pic, sent + [info], lost, id))
    {
      if !Visits(mcus, |mcus|, id) {
        LevelStays(pic, sent, lost, info, id);
      }
    }
  }

  /** Stores decoded blocks at their places. */
  function Stored(blocks: seq<Block>, ids: seq<nat>, out: seq<Block>): (r: seq<Block>)
    requires |ids| == |out| && forall j :: 0 <= j < |ids| ==> ids[j] < |blocks|
    ensures |r| == |blocks|
    ensures forall id :: 0 <= id < |blocks| && id !in ids ==> r[id] == blocks[id]
    ensures (forall i, j :: 0 <= i < j < |ids| ==> ids[i] != ids[j]) ==> forall j :: 0 <= j < |ids| ==>
      r[ids[j]] == out[j]
    decreases |ids|
  {
    if ids == [] then blocks
    else
      var n := |ids| - 1;
      Stored(blocks, ids[..n], out[..n])[ids[n] := out[n]]
  }

  /** What one MCU of a pass brings. */
  lemma ReceivingStep(pic: Picture, sent: seq<ScanInfo>, lost: set<nat>, info: ScanInfo, mcus: seq<seq<nat>>, n: nat,
                      received: seq<Block>, out: seq<Block>)
    requires n < |mcus| && Script.BandOk(info)
    requires Receiving(pic, sent, lost, info, mcus, n, received) && Covers(pic, info, mcus)
    requires var ids := mcus[n];
      HoldAll(out, Pick(pic.blocks, ids), RaiseAll(LevelsOfAll(pic, sent, lost, ids), info.ss, info.se, info.al))
    requires Proper(sent)
    ensures Receiving(pic, sent, lost, info, mcus, n + 1, Stored(received, mcus[n], out))
  {
    hide Claims, LevelsOf, Lift, LevelsOk, Proper;
    var ids := mcus[n];
    var now := Stored(received, ids, out);
    forall id | 0 <= id < |now|
      ensures Claims(now[id], pic.blocks[id],
        LevelsOf(pic, if Visits(mcus, n + 1, id) then sent + [info] else sent, lost, id))
    {
      if id in ids {
        var j :| 0 <= j < |ids| && ids[j] == id;
        LiftIsLevel(pic, sent, lost, info, id);
        assert Visits(mcus, n + 1, id);
        assert now[ids[j]] == out[j];
      } else {
        assert Visits(mcus, n + 1, id) <==> Visits(mcus, n, id);
      }
    }
  }

  /** Before its own MCU, a block is where the pass before left it. */
  lemma ReadyBlocks(pic: Picture, sent: seq<ScanInfo>, lost: set<nat>, info: ScanInfo, mcus: seq<seq<nat>>, n: nat,
                    received: seq<Block>)
    requires n < |mcus|
    requires Receiving(pic, sent, lost, info, mcus, n, received) && Covers(pic, info, mcus)
    ensures |received| == |pic.blocks| && forall j :: 0 <= j < |mcus[n]| ==> mcus[n][j] < |pic.blocks|
    ensures HoldAll(Pick(received, mcus[n]), Pick(pic.blocks, mcus[n]), LevelsOfAll(pic, sent, lost, mcus[n]))
  {
    hide Claims, LevelsOf;
    forall j | 0 <= j < |mcus[n]|
      ensures !Visits(mcus, n, mcus[n][j])
    {
    }
  }

  /** An accepted script gives each routine what it expects. */
  lemma ScriptReady(pic: Picture, n: nat, sent: seq<ScanInfo>, lost: set<nat>, pass: Pass, i: nat)
    requires PassOk(pic, pass) && i < |pass.mcus|
    requires Script.ProgressiveScanOk(n, sent, pass.info)
    ensures LevelsReady(RoutineOf(pass.info), LevelsOfAll(pic, sent, lost, pass.mcus[i]))
  {
    hide Script.Level, Disjoint;
    var info, ids := pass.info, pass.mcus[i];
    forall j | 0 <= j < |ids| && LevelsOf(pic, sent, lost, ids[j]) != []
      ensures forall k :: info.ss <= k <= info.se ==>
        var level := LevelsOf(pic, sent, lost, ids[j])[k]; (k == 0 && level == LOST) || Script.Continues(level, info)
    {
      var c := pic.compOf[ids[j]];
      var m :| 0 <= m < |info.comps| && info.comps[m] == c;
      assert Script.ComponentFollows(sent, info, info.comps[m]);
    }
  }

  /** An MCU whose DC values cannot be followed. */
  lemma LosingStep(pic: Picture, sent: seq<ScanInfo>, lost: set<nat>, info: ScanInfo, mcus: seq<seq<nat>>, n: nat,
                   received: seq<Block>, out: seq<Block>)
    requires n < |mcus| && info.ss == info.se == 0
    requires Receiving(pic, sent, lost, info, mcus, n, received) && Covers(pic, info, mcus)
    requires HoldAll(out, Pick(pic.blocks, mcus[n]), LoseAll(LevelsOfAll(pic, sent, lost, mcus[n])))
    ensures Receiving(pic, sent, lost + SetOf(mcus[n]), info, mcus, n + 1, Stored(received, mcus[n], out))
  {
    hide Claims, LevelsOf, Lose, LevelsOk;
    var ids, gone := mcus[n], lost + SetOf(mcus[n]);
    var now := Stored(received, ids, out);
    forall id | 0 <= id < |now|
      ensures Claims(now[id], pic.blocks[id],
        LevelsOf(pic, if Visits(mcus, n + 1, id) then sent + [info] else sent, gone, id))
    {
      if id in ids {
        var j :| 0 <= j < |ids| && ids[j] == id;
        LoseIsLevel(pic, sent, lost, gone, info, id);
        assert Visits(mcus, n + 1, id);
        assert now[ids[j]] == out[j];
      } else {
        assert Visits(mcus, n + 1, id) <==> Visits(mcus, n, id);
        SameLevels(pic, if Visits(mcus, n, id) then sent + [info] else sent, lost, gone, id);
      }
    }
  }

  function SetOf(ids: seq<nat>): set<nat> {
    set id | id in ids
  }

  lemma SameLevels(pic: Picture, sent: seq<ScanInfo>, lost: set<nat>, gone: set<nat>, id: nat)
    requires pic.Ok() && id < |pic.blocks| && (id in lost <==> id in gone)
    ensures LevelsOf(pic, sent, lost, id) == LevelsOf(pic, sent, gone, id)
  {
    hide Script.Level;
  }

  lemma LoseIsLevel(pic: Picture, sent: seq<ScanInfo>, lost: set<nat>, gone: set<nat>, info: ScanInfo, id: nat)
    requires pic.Ok() && id < |pic.blocks| && info.ss == info.se == 0 && id in gone
    ensures Lose(LevelsOf(pic, sent, lost, id)) == LevelsOf(pic, sent + [info], gone, id)
  {
    hide Script.Level;
    forall k | 0 <= k < 64
      ensures Script.Level(sent + [info], pic.compOf[id], k)
        == if Script.Touches(info, pic.compOf[id], k) then info.al else Script.Level(sent, pic.compOf[id], k)
    {
      Script.LevelStep(sent, info, pic.compOf[id], k);
    }
  }

  /** The blocks that lose their DC values in the first n MCUs of a pass. */
  ghost predicate LostIn(pic: Picture, pass: Pass, n: nat, id: nat)
    requires PassOk(pic, pass) && n <= |pass.mcus|
  {
    exists m :: 0 <= m < n && id in pass.mcus[m]
      && !Arrives(pass.scan, RoutineOf(pass.info), pass.restartInterval, Content(pic, pass), m)
  }

  /** Which blocks are lost after n MCUs of a pass, given those lost before it. */
  ghost predicate LostAre(pic: Picture, pass: Pass, n: nat, before: set<nat>, lost: set<nat>)
    requires PassOk(pic, pass) && n <= |pass.mcus|
  {
    forall id: nat :: id in lost <==> id in before || LostIn(pic, pass, n, id)
  }

  lemma LostNext(pic: Picture, pass: Pass, n: nat, before: set<nat>, lost: set<nat>)
    requires PassOk(pic, pass) && n < |pass.mcus| && LostAre(pic, pass, n, before, lost)
    ensures var arrives := Arrives(pass.scan, RoutineOf(pass.info), pass.restartInterval, Content(pic, pass), n);
      LostAre(pic, pass, n + 1, before, if arrives then lost else lost + SetOf(pass.mcus[n]))
  {
    hide Arrives, Content;
    var r := RoutineOf(pass.info);
    forall id: nat
      ensures LostIn(pic, pass, n + 1, id) <==>
        LostIn(pic, pass, n, id)
        || (id in pass.mcus[n] && !Arrives(pass.scan, r, pass.restartInterval, Content(pic, pass), n))
    {
    }
  }

  lemma NoneLostYet(pic: Picture, pass: Pass, lost: set<nat>)
    requires PassOk(pic, pass)
    ensures LostAre(pic, pass, 0, lost, lost)
  {
    hide Arrives, Content;
  }

  lemma BandOfDc(info: ScanInfo)
    requires Script.BandOk(info) && RoutineOf(info).FirstDc?
    ensures info.ss == info.se == 0
  {
  }

  /**
    Decodes the segments of one pass into the coefficient arrays. A warning is given when a DC difference cannot be
    followed; decoding goes on, and what is lost are the DC values up to the end of the interval.
  */
  method DecodePass(src: seq<byte>, pass: Pass, ghost pic: Picture, coefs: seq<Block>, ghost n: nat,
                    ghost sent: seq<ScanInfo>, ghost before: set<nat>, ghost intervals: seq<seq<seq<Block>>>,
                    ghost segments: seq<seq<byte>>, ghost tail: seq<byte>, ghost fill: nat)
      returns (warned: bool, received: seq<Block>, ghost lost: set<nat>)
    requires PassOk(pic, pass) && Script.ProgressiveScanOk(n, sent, pass.info) && Proper(sent)
    requires Received(pic, sent, before, coefs)
    requires Encoded(pass.scan, RoutineOf(pass.info), pass.restartInterval, intervals, segments) && Terminator(tail, fill)
    requires src == WithMarkers(segments[..|segments| - 1]) + Stuff(segments[|segments| - 1]) + tail
    requires Joined(intervals) == Content(pic, pass)
    ensures warned <==> !PassFollows(pic, pass)
    ensures Received(pic, sent + [pass.info], lost, received) && LostAre(pic, pass, |pass.mcus|, before, lost)
  {
    hide ScanDecoder.Valid, ScanFollows, StartDc, Stuff, WithMarkers, Terminator, Encoded, Joined, Arrives, Passed,
      Content, HoldAll, RaiseAll, LoseAll, LevelsReady, Claims, LevelsOf, Covers, Receiving, Received, Proper,
      Script.ProgressiveScanOk, LostAre;
    ghost var mcus := Content(pic, pass);
    var scan, r := pass.scan, RoutineOf(pass.info);
    var dec := new ScanDecoder(src, scan, r, pass.restartInterval, intervals, segments, tail, fill);
    received, warned, lost := coefs, false, before;
    ReceivingStarts(pic, sent, lost, pass.info, pass.mcus, received);
    assert mcus[0..] == mcus;
    PassedNone(pass.restartInterval, mcus);
    NoneLostYet(pic, pass, lost);
    for i := 0 to |pass.mcus|
      invariant fresh(dec) && fresh(dec.dec) && fresh(dec.dec.arith)
      invariant dec.dec.scan == scan && dec.r == r && dec.restartInterval == pass.restartInterval
      invariant dec.Valid() && dec.Rest() == mcus[i..]
      invariant Passed(pass.restartInterval, mcus, i, dec.done)
      invariant Receiving(pic, sent, lost, pass.info, pass.mcus, i, received) && LostAre(pic, pass, i, before, lost)
      invariant warned <==> exists j :: 0 <= j < i && !Arrives(scan, r, pass.restartInterval, mcus, j)
    {
      ReadyBlocks(pic, sent, lost, pass.info, pass.mcus, i, received);
      ScriptReady(pic, n, sent, lost, pass, i);
      dec.Counts();
      PassedNext(pass.restartInterval, dec.restartsToGo, mcus, i, dec.done);
      var out := dec.DecodeMcu(Pick(received, pass.mcus[i]), mcus[i], mcus[i + 1..],
                               LevelsOfAll(pic, sent, lost, pass.mcus[i]));
      PassedArrives(scan, r, pass.restartInterval, mcus, i, dec.done);
      LostNext(pic, pass, i, before, lost);
      if dec.dec.failed {
        warned := true;
        BandOfDc(pass.info);
        LosingStep(pic, sent, lost, pass.info, pass.mcus, i, received, out);
        lost := lost + SetOf(pass.mcus[i]);
      } else {
        ReceivingStep(pic, sent, lost, pass.info, pass.mcus, i, received, out);
      }
      received := Stored(received, pass.mcus[i], out);
    }
    ReceivingEnds(pic, sent, lost, pass.info, pass.mcus, received);
  }

  // ---- the whole script ----

  function Infos(passes: seq<Pass>): (r: seq<ScanInfo>)
    ensures |r| == |passes| && forall i :: 0 <= i < |r| ==> r[i] == passes[i].info
  {
    seq(|passes|, i requires 0 <= i < |passes| => passes[i].info)
  }

  lemma InfosStep(passes: seq<Pass>, i: nat)
    requires i < |passes|
    ensures Infos(passes)[..i + 1] == Infos(passes)[..i] + [passes[i].info]
  {
  }

  /** Arrays of zeros hold all that has been sent before the first scan. */
  lemma NothingReceived(pic: Picture, received: seq<Block>)
    requires pic.Ok() && received == seq(|pic.blocks|, _ => ZERO_BLOCK)
    ensures Received(pic, [], {}, received)
  {
    hide At;
    forall id | 0 <= id < |received|
      ensures Claims(received[id], pic.blocks[id], LevelsOf(pic, [], {}, id))
    {
      forall k | 0 <= k < 64
        ensures At(ZERO_BLOCK, k) == 0
      {
        ZeroBlockAt(k);
      }
    }
  }

  /** The received value of one coefficient of the image. */
  lemma ReceivedAt(pic: Picture, sent: seq<ScanInfo>, lost: set<nat>, received: seq<Block>, id: nat)
    requires Received(pic, sent, lost, received) && id < |pic.blocks| && pic.inImage[id]
    requires Proper(sent)
    ensures |received| == |pic.blocks|
    ensures forall k :: 0 <= k < 64 && (k > 0 || id !in lost) ==>
      At(received[id], k) == Known(k, At(pic.blocks[id], k), Script.Level(sent, pic.compOf[id], k))
  {
    hide At, Known, Script.Level;
    assert Claims(received[id], pic.blocks[id], LevelsOf(pic, sent, lost, id));
  }

  /** Every coefficient of a block has been sent down to its lowest bit. */
  predicate WhollySent(pic: Picture, sent: seq<ScanInfo>, id: nat)
    requires pic.Ok() && id < |pic.blocks|
  {
    forall k :: 0 <= k < 64 ==> Script.Level(sent, pic.compOf[id], k) == 0
  }

  lemma AllBitsReceived(pic: Picture, sent: seq<ScanInfo>, lost: set<nat>, received: seq<Block>, id: nat)
    requires Received(pic, sent, lost, received) && id < |pic.blocks| && pic.inImage[id]
    requires WhollySent(pic, sent, id) && id !in lost && Proper(sent)
    ensures |received| == |pic.blocks| && received[id] == pic.blocks[id]
  {
    hide At, Script.Level, Received;
    ReceivedAt(pic, sent, lost, received, id);
    assert Pow2(0) == 1;
    SameBlock(received[id], pic.blocks[id]);
  }

  /** Encodes one pass and decodes it into the arrays received so far. */
  method SendPass(pic: Picture, pass: Pass, coefs: seq<Block>, marker: byte, ghost n: nat, ghost sent: seq<ScanInfo>,
                  ghost before: set<nat>)
      returns (warned: bool, received: seq<Block>, ghost lost: set<nat>)
    requires PassOk(pic, pass) && Script.ProgressiveScanOk(n, sent, pass.info) && Marker(marker) && Proper(sent)
    requires Received(pic, sent, before, coefs)
    ensures warned <==> !PassFollows(pic, pass)
    ensures Received(pic, sent + [pass.info], lost, received) && LostAre(pic, pass, |pass.mcus|, before, lost)
  {
    hide Encoded, Arrives, WithMarkers, Stuff, Joined, Content, Received, Covers, Proper, Script.ProgressiveScanOk,
      LostAre;
    var bytes, intervals, segments := EncodeScan(pass.scan, RoutineOf(pass.info), pass.restartInterval,
      Content(pic, pass));
    var tail: seq<byte> := [0xFF, marker];
    warned, received, lost := DecodePass(bytes + tail, pass, pic, coefs, n, sent, before, intervals, segments, tail, 1);
  }

  /** In one of the first n passes the DC value of the block is one that cannot be followed, or comes after one. */
  ghost predicate DcLost(pic: Picture, passes: seq<Pass>, n: nat, id: nat)
    requires n <= |passes| && forall i :: 0 <= i < |passes| ==> PassOk(pic, passes[i])
  {
    exists i :: 0 <= i < n && LostIn(pic, passes[i], |passes[i].mcus|, id)
  }

  lemma {:induction false} ScriptProper(n: nat, sent: seq<ScanInfo>)
    requires Script.ScansOk(n, true, sent)
    ensures Proper(sent)
  {
    hide Script.Level;
    if sent == [] {
      NothingSent();
    } else {
      var m := |sent| - 1;
      assert Script.ScanOk(n, true, sent[..m], sent[m]);
      assert sent == sent[..m] + [sent[m]];
      Script.ScansOkSnoc(n, true, sent[..m], sent[m]);
      ScriptProper(n, sent[..m]);
      forall c, k
        ensures Script.Level(sent, c, k) != LOST
      {
        Script.LevelStep(sent[..m], sent[m], c, k);
      }
    }
  }

  lemma NothingSent()
    ensures Proper([])
  {
  }

  /**
    For every accepted progressive script: after all scans, each coefficient of the image is received exactly down to
    the last bit position sent for it, except the DC values from one that a decoder cannot follow up to the end of its
    restart interval. A warning is given just when there are any such.
  */
  method ProgressiveRoundTrip(pic: Picture, n: nat, passes: seq<Pass>, marker: byte)
      returns (warned: bool, received: seq<Block>)
    requires pic.Ok() && Script.ScriptOk(n, Infos(passes)) && Script.Progressive(Infos(passes))
    requires forall i :: 0 <= i < |passes| ==> PassOk(pic, passes[i])
    requires Marker(marker)
    ensures warned <==> exists i :: 0 <= i < |passes| && !PassFollows(pic, passes[i])
    ensures |received| == |pic.blocks|
    ensures forall id, k | 0 <= id < |pic.blocks| && pic.inImage[id] && 0 <= k < 64 ::
      k > 0 || !DcLost(pic, passes, |passes|, id) ==>
        At(received[id], k) == Known(k, At(pic.blocks[id], k), Script.Level(Infos(passes), pic.compOf[id], k))
    ensures forall id | 0 <= id < |pic.blocks| && pic.inImage[id] ::
      WhollySent(pic, Infos(passes), id) && !DcLost(pic, passes, |passes|, id) ==> received[id] == pic.blocks[id]
  {
    hide PassFollows, Received, PassOk, Script.ProgressiveScanOk, At, Known, Script.Level, Script.Complete, LostAre,
      LostIn, Proper;
    received := seq(|pic.blocks|, _ => ZERO_BLOCK);
    ghost var infos := Infos(passes);
    ghost var lost: set<nat> := {};
    NothingReceived(pic, received);
    assert infos[..0] == [];
    warned := false;
    for i := 0 to |passes|
      invariant Received(pic, infos[..i], lost, received)
      invariant forall id: nat :: id in lost <==> DcLost(pic, passes, i, id)
      invariant warned <==> exists j :: 0 <= j < i && !PassFollows(pic, passes[j])
    {
      assert Script.ScanOk(n, true, infos[..i], infos[i]);
      ghost var before := lost;
      FirstScansOk(n, infos, i);
      ScriptProper(n, infos[..i]);
      var more;
      more, received, lost := SendPass(pic, passes[i], received, marker, n, infos[..i], before);
      warned := warned || more;
      LostMore(pic, passes, i, before, lost);
      InfosStep(passes, i);
    }
    assert infos[..|passes|] == infos;
    ReceivedAll(pic, n, infos, lost, received);
  }

  lemma FirstScansOk(n: nat, scans: seq<ScanInfo>, i: nat)
    requires Script.ScansOk(n, true, scans) && i <= |scans|
    ensures Script.ScansOk(n, true, scans[..i])
  {
    hide Script.ScanOk;
    assert forall j :: 0 <= j < i ==> scans[..i][..j] == scans[..j];
  }

  lemma LostMore(pic: Picture, passes: seq<Pass>, i: nat, before: set<nat>, lost: set<nat>)
    requires i < |passes| && forall j :: 0 <= j < |passes| ==> PassOk(pic, passes[j])
    requires forall id: nat :: id in before <==> DcLost(pic, passes, i, id)
    requires LostAre(pic, passes[i], |passes[i].mcus|, before, lost)
    ensures forall id: nat :: id in lost <==> DcLost(pic, passes, i + 1, id)
  {
    hide LostIn, PassOk;
  }

  lemma ReceivedAll(pic: Picture, n: nat, sent: seq<ScanInfo>, lost: set<nat>, received: seq<Block>)
    requires Received(pic, sent, lost, received) && Script.ScansOk(n, true, sent)
    ensures |received| == |pic.blocks|
    ensures forall id, k :: 0 <= id < |pic.blocks| && pic.inImage[id] && 0 <= k < 64 && (k > 0 || id !in lost) ==>
      At(received[id], k) == Known(k, At(pic.blocks[id], k), Script.Level(sent, pic.compOf[id], k))
    ensures forall id :: 0 <= id < |pic.blocks| && pic.inImage[id] && WhollySent(pic, sent, id) && id !in lost ==>
      received[id] == pic.blocks[id]
  {
    hide At, Known, Script.Level, Claims, LevelsOf, Script.ScansOk;
    ScriptProper(n, sent);
    forall id | 0 <= id < |pic.blocks| && pic.inImage[id]
      ensures forall k :: 0 <= k < 64 && (k > 0 || id !in lost) ==>
        At(received[id], k) == Known(k, At(pic.blocks[id], k), Script.Level(sent, pic.compOf[id], k))
    {
      ReceivedAt(pic, sent, lost, received, id);
    }
    forall id | 0 <= id < |pic.blocks| && pic.inImage[id] && WhollySent(pic, sent, id) && id !in lost
      ensures received[id] == pic.blocks[id]
    {
      AllBitsReceived(pic, sent, lost, received, id);
    }
  }

  /** The default script leaves nothing out, so it brings every block back exactly. */
  lemma DefaultScriptSendsAll(pic: Picture, n: nat, ycc: bool, id: nat)
    requires pic.Ok() && n >= 1 && id < |pic.blocks| && pic.compOf[id] < n
    ensures Script.ScriptOk(n, SimpleProgression.DefaultScript(n, ycc))
    ensures WhollySent(pic, SimpleProgression.DefaultScript(n, ycc), id)
  {
    hide Script.Level, Script.ScriptOk, SimpleProgression.DefaultScript;
    SimpleProgression.DefaultScriptOk(n, ycc);
  }
}
