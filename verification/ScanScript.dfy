/** Scan scripts: what validate_script of jcmaster.c accepts, and what an accepted script sends. */
module ScanScript {
  const MAX_COMPS_IN_SCAN: nat := 4
  const MAX_AH_AL: nat := 10

  /** One entry of a script: component indexes, spectral selection ss..se, successive approximation ah, al. */
  datatype ScanInfo = ScanInfo(comps: seq<int>, ss: int, se: int, ah: int, al: int)

  predicate Touches(s: ScanInfo, c: int, k: int) {
    c in s.comps && s.ss <= k <= s.se
  }

  /** The last Al sent for a coefficient of a component; -1 if it has not been sent. */
  function Level(scans: seq<ScanInfo>, c: int, k: int): int {
    if scans == [] then -1
    else if Touches(scans[|scans| - 1], c, k) then scans[|scans| - 1].al
    else Level(scans[..|scans| - 1], c, k)
  }

  /** At least one and at most four components, in the order of the frame header. */
  predicate CompsOk(n: nat, comps: seq<int>) {
    && 0 < |comps| <= MAX_COMPS_IN_SCAN
    && (forall i :: 0 <= i < |comps| ==> 0 <= comps[i] < n)
    && (forall i :: 1 <= i < |comps| ==> comps[i - 1] < comps[i])
  }

  predicate BandOk(s: ScanInfo) {
    && 0 <= s.ss <= s.se < 64
    && 0 <= s.ah <= MAX_AH_AL && 0 <= s.al <= MAX_AH_AL
    && (s.ss == 0 ==> s.se == 0)
    && (s.ss != 0 ==> |s.comps| == 1)
  }

  /** A coefficient is first sent with Ah = 0, then one bit at a time. */
  predicate Continues(level: int, s: ScanInfo) {
    if level < 0 then s.ah == 0 else s.ah == level && s.al == s.ah - 1
  }

  predicate ComponentFollows(before: seq<ScanInfo>, s: ScanInfo, c: int) {
    && (s.ss != 0 ==> Level(before, c, 0) >= 0)
    && forall k :: s.ss <= k <= s.se ==> Continues(Level(before, c, k), s)
  }

  predicate ProgressiveScanOk(n: nat, before: seq<ScanInfo>, s: ScanInfo) {
    && CompsOk(n, s.comps) && BandOk(s)
    && forall i :: 0 <= i < |s.comps| ==> ComponentFollows(before, s, s.comps[i])
  }

  predicate SequentialScanOk(n: nat, before: seq<ScanInfo>, s: ScanInfo) {
    && CompsOk(n, s.comps) && s.ss == 0 && s.se == 63 && s.ah == 0 && s.al == 0
    && forall i :: 0 <= i < |s.comps| ==> Level(before, s.comps[i], 0) < 0
  }

  /** The first scan decides the mode for all of them. */
  predicate Progressive(scans: seq<ScanInfo>)
    requires |scans| > 0
  {
    scans[0].ss != 0 || scans[0].se != 63
  }

  predicate ScanOk(n: nat, progressive: bool, before: seq<ScanInfo>, s: ScanInfo) {
    if progressive then ProgressiveScanOk(n, before, s) else SequentialScanOk(n, before, s)
  }

  predicate ScansOk(n: nat, progressive: bool, scans: seq<ScanInfo>) {
    forall i :: 0 <= i < |scans| ==> ScanOk(n, progressive, scans[..i], scans[i])
  }

  /** Every component has had its DC coefficients sent. */
  predicate Complete(n: nat, scans: seq<ScanInfo>) {
    forall c :: 0 <= c < n ==> Level(scans, c, 0) >= 0
  }

  predicate ScriptOk(n: nat, scans: seq<ScanInfo>) {
    |scans| > 0 && ScansOk(n, Progressive(scans), scans) && Complete(n, scans)
  }

  // ---- what an accepted script sends ----

  /** The Al values of the scans that touch a coefficient, in order. */
  function BitsSent(scans: seq<ScanInfo>, c: int, k: int): seq<int> {
    if scans == [] then []
    else
      BitsSent(scans[..|scans| - 1], c, k)
      + if Touches(scans[|scans| - 1], c, k) then [scans[|scans| - 1].al] else []
  }

  /** From some Al down to the last one, each bit position is sent exactly once, in descending order. */
  lemma {:induction false} EachBitOnce(n: nat, scans: seq<ScanInfo>, c: int, k: int)
    requires ScansOk(n, true, scans)
    ensures var sent := BitsSent(scans, c, k);
      && (Level(scans, c, k) < 0 <==> sent == [])
      && (sent != [] ==> sent[|sent| - 1] == Level(scans, c, k))
      && forall i :: 0 <= i < |sent| ==> sent[i] == sent[0] - i
  {
    if scans != [] {
      var before, s := scans[..|scans| - 1], scans[|scans| - 1];
      assert forall i :: 0 <= i < |before| ==> before[..i] == scans[..i] && before[i] == scans[i];
      assert ScansOk(n, true, before);
      EachBitOnce(n, before, c, k);
      if Touches(s, c, k) {
        assert ProgressiveScanOk(n, before, s) by {
          assert scans[..|scans| - 1] == before;
        }
        var i :| 0 <= i < |s.comps| && s.comps[i] == c;
        assert ComponentFollows(before, s, s.comps[i]);
        assert Continues(Level(before, c, k), s);
      }
    }
  }

  lemma LevelStep(scans: seq<ScanInfo>, s: ScanInfo, c: int, k: int)
    ensures Level(scans + [s], c, k) == if Touches(s, c, k) then s.al else Level(scans, c, k)
  {
    assert (scans + [s])[..|scans|] == scans;
  }

  /** An accepted scan may be appended to an accepted script. */
  lemma ScansOkSnoc(n: nat, progressive: bool, scans: seq<ScanInfo>, s: ScanInfo)
    ensures ScansOk(n, progressive, scans + [s]) <==>
      ScansOk(n, progressive, scans) && ScanOk(n, progressive, scans, s)
  {
    hide ScanOk;
    var all := scans + [s];
    assert all[..|scans|] == scans && all[|scans|] == s;
    forall i | 0 <= i < |scans|
      ensures all[..i] == scans[..i] && all[i] == scans[i]
    {
    }
    if ScansOk(n, progressive, all) {
      assert ScanOk(n, progressive, all[..|scans|], all[|scans|]);
    }
  }
}
