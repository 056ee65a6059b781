/** The recommended progressive script, written by jpeg_simple_progression of jcparam.c. */
module SimpleProgression {
  import opened ScanScript

  // ---- the script as a value ----

  /** One scan for each of the first m components. */
  function OneEach(m: nat, ss: int, se: int, ah: int, al: int): (r: seq<ScanInfo>)
    ensures |r| == m
  {
    seq(m, c requires 0 <= c < m => ScanInfo([c], ss, se, ah, al))
  }

  function FirstComps(m: nat): (r: seq<int>)
    ensures |r| == m
  {
    seq(m, c requires 0 <= c < m => c)
  }

  /** An interleaved DC scan if possible, else one for each component. */
  function DcScans(ncomps: nat, ah: int, al: int): seq<ScanInfo> {
    if ncomps <= MAX_COMPS_IN_SCAN then [ScanInfo(FirstComps(ncomps), 0, 0, ah, al)]
    else OneEach(ncomps, 0, 0, ah, al)
  }

  function GeneralScript(ncomps: nat): seq<ScanInfo> {
    DcScans(ncomps, 0, 1) + OneEach(ncomps, 1, 5, 0, 2) + OneEach(ncomps, 6, 63, 0, 2)
    + OneEach(ncomps, 1, 63, 2, 1) + DcScans(ncomps, 1, 0) + OneEach(ncomps, 1, 63, 1, 0)
  }

  function YccScript(): seq<ScanInfo> {
    [ScanInfo(FirstComps(3), 0, 0, 0, 1)] + [ScanInfo([0], 1, 5, 0, 2)] + [ScanInfo([2], 1, 63, 0, 1)]
    + [ScanInfo([1], 1, 63, 0, 1)] + [ScanInfo([0], 6, 63, 0, 2)] + [ScanInfo([0], 1, 63, 2, 1)]
    + [ScanInfo(FirstComps(3), 0, 0, 1, 0)] + [ScanInfo([2], 1, 63, 1, 0)] + [ScanInfo([1], 1, 63, 1, 0)]
    + [ScanInfo([0], 1, 63, 1, 0)]
  }

  function DefaultScript(ncomps: nat, ycc: bool): seq<ScanInfo> {
    if ncomps == 3 && ycc then YccScript() else GeneralScript(ncomps)
  }

  // ---- writing it ----

  method FillAScan(space: array<ScanInfo>, p: nat, ci: nat, ss: int, se: int, ah: int, al: int) returns (p': nat)
    requires p < space.Length
    modifies space
    ensures p' == p + 1
    ensures space[..p'] == old(space[..p]) + [ScanInfo([ci], ss, se, ah, al)]
  {
    space[p] := ScanInfo([ci], ss, se, ah, al);
    p' := p + 1;
  }

  method FillScans(space: array<ScanInfo>, p: nat, ncomps: nat, ss: int, se: int, ah: int, al: int) returns (p': nat)
    requires p + ncomps <= space.Length
    modifies space
    ensures p' == p + ncomps
    ensures space[..p'] == old(space[..p]) + OneEach(ncomps, ss, se, ah, al)
  {
    p' := p;
    for ci := 0 to ncomps
      invariant p' == p + ci
      invariant space[..p'] == old(space[..p]) + OneEach(ci, ss, se, ah, al)
    {
      space[p'] := ScanInfo([ci], ss, se, ah, al);
      assert OneEach(ci + 1, ss, se, ah, al) == OneEach(ci, ss, se, ah, al) + [ScanInfo([ci], ss, se, ah, al)];
      p' := p' + 1;
    }
  }

  method FillDcScans(space: array<ScanInfo>, p: nat, ncomps: nat, ah: int, al: int) returns (p': nat)
    requires p + |DcScans(ncomps, ah, al)| <= space.Length
    modifies space
    ensures p' == p + |DcScans(ncomps, ah, al)|
    ensures space[..p'] == old(space[..p]) + DcScans(ncomps, ah, al)
  {
    if ncomps <= MAX_COMPS_IN_SCAN {
      var comps: seq<int> := [];
      for ci := 0 to ncomps
        invariant comps == FirstComps(ci)
      {
        comps := comps + [ci];
      }
      space[p] := ScanInfo(comps, 0, 0, ah, al);
      p' := p + 1;
    } else {
      p' := FillScans(space, p, ncomps, 0, 0, ah, al);
    }
  }

  /** The space figured for the script. */
  function ScansNeeded(ncomps: nat, ycc: bool): nat {
    if ncomps == 3 && ycc then 10
    else if ncomps > MAX_COMPS_IN_SCAN then 6 * ncomps
    else 2 + 4 * ncomps
  }

  /** Writes the script, into the space of an earlier call when that is large enough. */
  method JpegSimpleProgression(ncomps: nat, ycc: bool, scriptSpace: array?<ScanInfo>)
      returns (space: array<ScanInfo>, nscans: nat)
    modifies scriptSpace
    ensures nscans == ScansNeeded(ncomps, ycc) <= space.Length
    ensures space == scriptSpace || fresh(space)
    ensures space[..nscans] == DefaultScript(ncomps, ycc)
  {
    nscans := ScansNeeded(ncomps, ycc);
    if scriptSpace == null || scriptSpace.Length < nscans {
      space := new ScanInfo[if nscans < 10 then 10 else nscans](_ => ScanInfo([], 0, 0, 0, 0));
    } else {
      space := scriptSpace;
    }
    if ncomps == 3 && ycc {
      WriteYcc(space);
    } else {
      WriteGeneral(space, ncomps);
    }
  }

  /** Custom script for YCbCr color images: luma data early, few scans for chroma. */
  method WriteYcc(space: array<ScanInfo>)
    requires space.Length >= 10
    modifies space
    ensures space[..10] == YccScript()
  {
    hide DcScans;
    var p: nat := 0;
    DcScansSize(3);
    p := FillDcScans(space, p, 3, 0, 1);
    p := FillAScan(space, p, 0, 1, 5, 0, 2);
    p := FillAScan(space, p, 2, 1, 63, 0, 1);
    p := FillAScan(space, p, 1, 1, 63, 0, 1);
    p := FillAScan(space, p, 0, 6, 63, 0, 2);
    p := FillAScan(space, p, 0, 1, 63, 2, 1);
    p := FillDcScans(space, p, 3, 1, 0);
    p := FillAScan(space, p, 2, 1, 63, 1, 0);
    p := FillAScan(space, p, 1, 1, 63, 1, 0);
    p := FillAScan(space, p, 0, 1, 63, 1, 0);
  }

  /** All-purpose script for other color spaces. */
  method WriteGeneral(space: array<ScanInfo>, ncomps: nat)
    requires space.Length >= ScansNeeded(ncomps, false)
    modifies space
    ensures space[..ScansNeeded(ncomps, false)] == GeneralScript(ncomps)
  {
    hide DcScans, OneEach;
    var p: nat := 0;
    DcScansSize(ncomps);
    p := FillDcScans(space, p, ncomps, 0, 1);
    p := FillScans(space, p, ncomps, 1, 5, 0, 2);
    p := FillScans(space, p, ncomps, 6, 63, 0, 2);
    p := FillScans(space, p, ncomps, 1, 63, 2, 1);
    p := FillDcScans(space, p, ncomps, 1, 0);
    p := FillScans(space, p, ncomps, 1, 63, 1, 0);
  }

  lemma DcScansSize(ncomps: nat)
    ensures forall ah, al :: |DcScans(ncomps, ah, al)| == if ncomps <= MAX_COMPS_IN_SCAN then 1 else ncomps
    ensures ncomps <= MAX_COMPS_IN_SCAN ==>
      forall ah, al :: DcScans(ncomps, ah, al) == [ScanInfo(FirstComps(ncomps), 0, 0, ah, al)]
  {
  }

  // ---- why it is a good script ----

  /** The levels of one component: its DC coefficient, coefficients 1..5, and coefficients 6..63. */
  datatype Profile = Profile(dc: int, low: int, high: int)

  function Apply(p: Profile, s: ScanInfo): Profile {
    Profile(if s.ss == 0 then s.al else p.dc,
            if s.ss == 1 then s.al else p.low,
            if s.se == 63 then s.al else p.high)
  }

  predicate Shows(scans: seq<ScanInfo>, c: int, p: Profile) {
    forall k :: 0 <= k < 64 ==> Level(scans, c, k) == if k == 0 then p.dc else if k <= 5 then p.low else p.high
  }

  predicate AllShow(scans: seq<ScanInfo>, ps: seq<Profile>) {
    forall c :: 0 <= c < |ps| ==> Shows(scans, c, ps[c])
  }

  function Raised(ps: seq<Profile>, s: ScanInfo): (r: seq<Profile>)
    ensures |r| == |ps|
    ensures forall c :: 0 <= c < |ps| ==> r[c] == if c in s.comps then Apply(ps[c], s) else ps[c]
  {
    seq(|ps|, c requires 0 <= c < |ps| => if c in s.comps then Apply(ps[c], s) else ps[c])
  }

  /** The bands the script uses, and that they continue what was sent before. */
  predicate Continuing(p: Profile, s: ScanInfo) {
    && (s.ss == 0 ==> s.se == 0 && Continues(p.dc, s))
    && (s.ss != 0 ==> p.dc >= 0)
    && (s.ss == 0 || (s.ss == 1 && s.se == 5) || (s.ss == 6 && s.se == 63) || (s.ss == 1 && s.se == 63))
    && (s.ss == 1 ==> Continues(p.low, s))
    && (s.se == 63 ==> Continues(p.high, s))
  }

  lemma AppendScan(scans: seq<ScanInfo>, ps: seq<Profile>, s: ScanInfo)
    requires ScansOk(|ps|, true, scans) && AllShow(scans, ps)
    requires CompsOk(|ps|, s.comps) && BandOk(s)
    requires forall i :: 0 <= i < |s.comps| ==> Continuing(ps[s.comps[i]], s)
    ensures ScansOk(|ps|, true, scans + [s])
    ensures AllShow(scans + [s], Raised(ps, s))
  {
    ScansOkSnoc(|ps|, true, scans, s);
    forall i | 0 <= i < |s.comps|
      ensures ComponentFollows(scans, s, s.comps[i])
    {
      ShownFollows(scans, s.comps[i], ps[s.comps[i]], s);
    }
    forall c | 0 <= c < |ps|
      ensures Shows(scans + [s], c, if c in s.comps then Apply(ps[c], s) else ps[c])
    {
      if c in s.comps {
        var i :| 0 <= i < |s.comps| && s.comps[i] == c;
        assert Continuing(ps[s.comps[i]], s);
      }
      ShownStep(scans, c, ps[c], s);
    }
  }

  lemma ShownFollows(scans: seq<ScanInfo>, c: int, p: Profile, s: ScanInfo)
    requires Shows(scans, c, p) && BandOk(s) && Continuing(p, s)
    ensures ComponentFollows(scans, s, c)
  {
    hide Level;
  }

  lemma ShownStep(scans: seq<ScanInfo>, c: int, p: Profile, s: ScanInfo)
    requires Shows(scans, c, p) && BandOk(s) && (c in s.comps ==> Continuing(p, s))
    ensures Shows(scans + [s], c, if c in s.comps then Apply(p, s) else p)
  {
    hide Level;
    forall k | 0 <= k < 64
      ensures Level(scans + [s], c, k) == if Touches(s, c, k) then s.al else Level(scans, c, k)
    {
      LevelStep(scans, s, c, k);
    }
  }

  /** All components at the same levels, except that the first m have already got the next scan. */
  function Partly(n: nat, m: nat, p: Profile, s: ScanInfo): (r: seq<Profile>)
    ensures |r| == n
    ensures forall c :: 0 <= c < n ==> r[c] == if c < m then Apply(p, s) else p
  {
    seq(n, c requires 0 <= c < n => if c < m then Apply(p, s) else p)
  }

  lemma RaisedPartly(n: nat, m: nat, p: Profile, s0: ScanInfo, s: ScanInfo)
    requires 1 <= m <= n && s.comps == [m - 1] && Apply(p, s) == Apply(p, s0)
    ensures Raised(Partly(n, m - 1, p, s0), s) == Partly(n, m, p, s0)
  {
    hide Apply;
    var a, b := Raised(Partly(n, m - 1, p, s0), s), Partly(n, m, p, s0);
    forall c | 0 <= c < n
      ensures a[c] == b[c]
    {
      assert c in s.comps <==> c == m - 1;
    }
  }

  lemma {:induction false} OneEachOk(scans: seq<ScanInfo>, n: nat, m: nat, p: Profile, ss: int, se: int, ah: int, al: int)
    requires m <= n
    requires var s := ScanInfo([0], ss, se, ah, al); BandOk(s) && Continuing(p, s)
    requires ScansOk(n, true, scans) && AllShow(scans, Partly(n, 0, p, ScanInfo([0], ss, se, ah, al)))
    ensures ScansOk(n, true, scans + OneEach(m, ss, se, ah, al))
    ensures AllShow(scans + OneEach(m, ss, se, ah, al), Partly(n, m, p, ScanInfo([0], ss, se, ah, al)))
  {
    var s0 := ScanInfo([0], ss, se, ah, al);
    if m == 0 {
      assert scans + OneEach(0, ss, se, ah, al) == scans;
    } else {
      hide ScansOk, AllShow, Continues;
      OneEachOk(scans, n, m - 1, p, ss, se, ah, al);
      var before, s := scans + OneEach(m - 1, ss, se, ah, al), ScanInfo([m - 1], ss, se, ah, al);
      var ps := Partly(n, m - 1, p, s0);
      AppendScan(before, ps, s);
      assert before + [s] == scans + OneEach(m, ss, se, ah, al);
      RaisedPartly(n, m, p, s0, s);
    }
  }

  /** Every component takes the same scan, together or one by one. */
  lemma EachOk(scans: seq<ScanInfo>, n: nat, p: Profile, p': Profile, ss: int, se: int, ah: int, al: int)
    requires var s := ScanInfo([0], ss, se, ah, al); BandOk(s) && Continuing(p, s) && p' == Apply(p, s)
    requires ScansOk(n, true, scans) && AllShow(scans, seq(n, _ => p))
    ensures ScansOk(n, true, scans + OneEach(n, ss, se, ah, al))
    ensures AllShow(scans + OneEach(n, ss, se, ah, al), seq(n, _ => p'))
  {
    hide ScansOk, AllShow, Continues;
    var s := ScanInfo([0], ss, se, ah, al);
    assert Partly(n, 0, p, s) == seq(n, _ => p);
    assert Partly(n, n, p, s) == seq(n, _ => p');
    OneEachOk(scans, n, n, p, ss, se, ah, al);
  }

  lemma DcOk(scans: seq<ScanInfo>, n: nat, p: Profile, p': Profile, ah: int, al: int)
    requires n >= 1 && 0 <= ah <= MAX_AH_AL && 0 <= al <= MAX_AH_AL
    requires Continues(p.dc, ScanInfo([0], 0, 0, ah, al)) && p' == p.(dc := al)
    requires ScansOk(n, true, scans) && AllShow(scans, seq(n, _ => p))
    ensures ScansOk(n, true, scans + DcScans(n, ah, al))
    ensures AllShow(scans + DcScans(n, ah, al), seq(n, _ => p'))
  {
    hide ScansOk, AllShow;
    if n <= MAX_COMPS_IN_SCAN {
      var s := ScanInfo(FirstComps(n), 0, 0, ah, al);
      forall c | 0 <= c < n
        ensures c in s.comps
      {
        assert s.comps[c] == c;
      }
      AppendScan(scans, seq(n, _ => p), s);
      assert Raised(seq(n, _ => p), s) == seq(n, _ => p');
    } else {
      EachOk(scans, n, p, p', 0, 0, ah, al);
    }
  }

  lemma NothingSent(n: nat)
    ensures ScansOk(n, true, []) && AllShow([], seq(n, _ => Profile(-1, -1, -1)))
  {
  }

  /** The all-purpose script is valid and sends every bit of every coefficient. */
  lemma GeneralScriptOk(n: nat)
    requires n >= 1
    ensures ScansOk(n, true, GeneralScript(n)) && AllShow(GeneralScript(n), seq(n, _ => Profile(0, 0, 0)))
  {
    hide ScansOk, AllShow, DcScans, OneEach;
    NothingSent(n);
    var s1 := DcScans(n, 0, 1);
    assert [] + s1 == s1;
    DcOk([], n, Profile(-1, -1, -1), Profile(1, -1, -1), 0, 1);
    var s2 := s1 + OneEach(n, 1, 5, 0, 2);
    EachOk(s1, n, Profile(1, -1, -1), Profile(1, 2, -1), 1, 5, 0, 2);
    var s3 := s2 + OneEach(n, 6, 63, 0, 2);
    EachOk(s2, n, Profile(1, 2, -1), Profile(1, 2, 2), 6, 63, 0, 2);
    var s4 := s3 + OneEach(n, 1, 63, 2, 1);
    EachOk(s3, n, Profile(1, 2, 2), Profile(1, 1, 1), 1, 63, 2, 1);
    var s5 := s4 + DcScans(n, 1, 0);
    DcOk(s4, n, Profile(1, 1, 1), Profile(0, 1, 1), 1, 0);
    EachOk(s5, n, Profile(0, 1, 1), Profile(0, 0, 0), 1, 63, 1, 0);
  }

  /** One scan of one component, in a script for three. */
  lemma OneOk(scans: seq<ScanInfo>, ps: seq<Profile>, ci: nat, ss: int, se: int, ah: int, al: int, ps': seq<Profile>)
    requires |ps| == 3 && ci < 3 && ScansOk(3, true, scans) && AllShow(scans, ps)
    requires var s := ScanInfo([ci], ss, se, ah, al);
      BandOk(s) && Continuing(ps[ci], s) && ps' == ps[ci := Apply(ps[ci], s)]
    ensures ScansOk(3, true, scans + [ScanInfo([ci], ss, se, ah, al)])
    ensures AllShow(scans + [ScanInfo([ci], ss, se, ah, al)], ps')
  {
    hide ScansOk, AllShow, Continues;
    var s := ScanInfo([ci], ss, se, ah, al);
    AppendScan(scans, ps, s);
    assert Raised(ps, s) == ps';
  }

  /** A DC scan of all three. */
  lemma AllThreeOk(scans: seq<ScanInfo>, ps: seq<Profile>, ah: int, al: int, ps': seq<Profile>)
    requires |ps| == |ps'| == 3 && ScansOk(3, true, scans) && AllShow(scans, ps)
    requires 0 <= ah <= MAX_AH_AL && 0 <= al <= MAX_AH_AL
    requires forall c :: 0 <= c < 3 ==> Continues(ps[c].dc, ScanInfo([0], 0, 0, ah, al)) && ps'[c] == ps[c].(dc := al)
    ensures ScansOk(3, true, scans + [ScanInfo(FirstComps(3), 0, 0, ah, al)])
    ensures AllShow(scans + [ScanInfo(FirstComps(3), 0, 0, ah, al)], ps')
  {
    hide ScansOk, AllShow;
    var s := ScanInfo(FirstComps(3), 0, 0, ah, al);
    forall c | 0 <= c < 3
      ensures c in s.comps
    {
      assert s.comps[c] == c;
    }
    AppendScan(scans, ps, s);
    assert Raised(ps, s) == ps';
  }

  /** The custom script likewise. */
  lemma YccScriptOk()
    ensures ScansOk(3, true, YccScript()) && AllShow(YccScript(), seq(3, _ => Profile(0, 0, 0)))
  {
    hide ScansOk, AllShow, FirstComps;
    NothingSent(3);
    var y0 := seq(3, _ => Profile(-1, -1, -1));
    var y1 := [Profile(1, -1, -1), Profile(1, -1, -1), Profile(1, -1, -1)];
    var s1 := [ScanInfo(FirstComps(3), 0, 0, 0, 1)];
    assert [] + s1 == s1;
    AllThreeOk([], y0, 0, 1, y1);
    var s2 := s1 + [ScanInfo([0], 1, 5, 0, 2)];
    var y2 := y1[0 := Profile(1, 2, -1)];
    OneOk(s1, y1, 0, 1, 5, 0, 2, y2);
    var s3 := s2 + [ScanInfo([2], 1, 63, 0, 1)];
    var y3 := y2[2 := Profile(1, 1, 1)];
    OneOk(s2, y2, 2, 1, 63, 0, 1, y3);
    var s4 := s3 + [ScanInfo([1], 1, 63, 0, 1)];
    var y4 := y3[1 := Profile(1, 1, 1)];
    OneOk(s3, y3, 1, 1, 63, 0, 1, y4);
    var s5 := s4 + [ScanInfo([0], 6, 63, 0, 2)];
    var y5 := y4[0 := Profile(1, 2, 2)];
    OneOk(s4, y4, 0, 6, 63, 0, 2, y5);
    var s6 := s5 + [ScanInfo([0], 1, 63, 2, 1)];
    var y6 := [Profile(1, 1, 1), Profile(1, 1, 1), Profile(1, 1, 1)];
    OneOk(s5, y5, 0, 1, 63, 2, 1, y6);
    var s7 := s6 + [ScanInfo(FirstComps(3), 0, 0, 1, 0)];
    var y7 := [Profile(0, 1, 1), Profile(0, 1, 1), Profile(0, 1, 1)];
    AllThreeOk(s6, y6, 1, 0, y7);
    var s8 := s7 + [ScanInfo([2], 1, 63, 1, 0)];
    var y8 := y7[2 := Profile(0, 0, 0)];
    OneOk(s7, y7, 2, 1, 63, 1, 0, y8);
    var s9 := s8 + [ScanInfo([1], 1, 63, 1, 0)];
    var y9 := y8[1 := Profile(0, 0, 0)];
    OneOk(s8, y8, 1, 1, 63, 1, 0, y9);
    OneOk(s9, y9, 0, 1, 63, 1, 0, seq(3, _ => Profile(0, 0, 0)));
  }

  /** The script written is valid, and ends with every coefficient of every component sent in full. */
  lemma DefaultScriptOk(ncomps: nat, ycc: bool)
    requires ncomps >= 1
    ensures ScriptOk(ncomps, DefaultScript(ncomps, ycc)) && Progressive(DefaultScript(ncomps, ycc))
    ensures |DefaultScript(ncomps, ycc)| == ScansNeeded(ncomps, ycc)
    ensures forall c, k :: 0 <= c < ncomps && 0 <= k < 64 ==> Level(DefaultScript(ncomps, ycc), c, k) == 0
  {
    var script := DefaultScript(ncomps, ycc);
    DcScansSize(ncomps);
    assert script[0] == if ncomps <= MAX_COMPS_IN_SCAN then ScanInfo(FirstComps(ncomps), 0, 0, 0, 1)
                        else OneEach(ncomps, 0, 0, 0, 1)[0];
    hide ScansOk, AllShow, Level, YccScript;
    if ncomps == 3 && ycc {
      YccScriptOk();
    } else {
      GeneralScriptOk(ncomps);
    }
    ShownLevels(script, ncomps);
  }

  lemma ShownLevels(scans: seq<ScanInfo>, n: nat)
    requires AllShow(scans, seq(n, _ => Profile(0, 0, 0)))
    ensures forall c, k :: 0 <= c < n && 0 <= k < 64 ==> Level(scans, c, k) == 0
  {
    hide Level;
    var ps := seq(n, _ => Profile(0, 0, 0));
    forall c, k | 0 <= c < n && 0 <= k < 64
      ensures Level(scans, c, k) == 0
    {
      assert Shows(scans, c, ps[c]);
    }
  }
}
