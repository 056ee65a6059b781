/** The validate_script routine of jcmaster.c. */
module ScriptValidator {
  import opened ScanScript

  /** The outcome: the mode of an accepted script, or why it was rejected; scans are numbered from 1. */
  datatype Verdict =
    | Accepted(progressive: bool)
    | NoScans
    | BadScan(scanno: nat)
    | MissingData

  /** Component indexes in range, and in ascending order. */
  method CheckComps(n: nat, s: ScanInfo) returns (ok: bool)
    ensures ok <==> CompsOk(n, s.comps)
  {
    if |s.comps| <= 0 || |s.comps| > MAX_COMPS_IN_SCAN {
      return false;
    }
    for ci := 0 to |s.comps|
      invariant forall i :: 0 <= i < ci ==> 0 <= s.comps[i] < n
      invariant forall i :: 1 <= i < ci ==> s.comps[i - 1] < s.comps[i]
    {
      if s.comps[ci] < 0 || s.comps[ci] >= n {
        return false;
      }
      if ci > 0 && s.comps[ci] <= s.comps[ci - 1] {
        return false;
      }
    }
    return true;
  }

  /** What the table of last bit positions says about one component. */
  predicate RowShows(row: seq<int>, scans: seq<ScanInfo>, c: int) {
    |row| == 64 && forall k :: 0 <= k < 64 ==> row[k] == Level(scans, c, k)
  }

  /** The successive approximation of one component's band; the row is brought up to date. */
  method CheckComponent(s: ScanInfo, row: seq<int>, c: int, ghost before: seq<ScanInfo>)
      returns (ok: bool, row': seq<int>)
    requires BandOk(s) && RowShows(row, before, c)
    ensures ok <==> ComponentFollows(before, s, c)
    ensures ok ==> |row'| == 64 && forall k :: 0 <= k < 64 ==>
      row'[k] == if s.ss <= k <= s.se then s.al else row[k]
  {
    row' := row;
    if s.ss != 0 && row[0] < 0 {
      return false, row';
    }
    var coefi := s.ss;
    while coefi <= s.se
      invariant s.ss <= coefi <= s.se + 1
      invariant |row'| == 64
      invariant forall k :: 0 <= k < 64 ==> row'[k] == if s.ss <= k < coefi then s.al else row[k]
      invariant forall k :: s.ss <= k < coefi ==> Continues(Level(before, c, k), s)
    {
      assert row'[coefi] == Level(before, c, coefi);
      if row'[coefi] < 0 {
        if s.ah != 0 {
          return false, row';
        }
      } else {
        if s.ah != row'[coefi] || s.al != s.ah - 1 {
          return false, row';
        }
      }
      row' := row'[coefi := s.al];
      coefi := coefi + 1;
    }
    return true, row';
  }

  predicate TableShows(table: seq<seq<int>>, n: nat, scans: seq<ScanInfo>) {
    |table| == n && forall c :: 0 <= c < n ==> RowShows(table[c], scans, c)
  }

  method CheckProgressiveScan(n: nat, s: ScanInfo, table: seq<seq<int>>, ghost before: seq<ScanInfo>)
      returns (ok: bool, table': seq<seq<int>>)
    requires CompsOk(n, s.comps) && TableShows(table, n, before)
    ensures ok <==> ProgressiveScanOk(n, before, s)
    ensures ok ==> TableShows(table', n, before + [s])
  {
    table' := table;
    if s.ss < 0 || s.ss >= 64 || s.se < s.ss || s.se >= 64 ||
       s.ah < 0 || s.ah > MAX_AH_AL || s.al < 0 || s.al > MAX_AH_AL {
      return false, table';
    }
    if s.ss == 0 {
      if s.se != 0 {
        return false, table';
      }
    } else {
      if |s.comps| != 1 {
        return false, table';
      }
    }
    for ci := 0 to |s.comps|
      invariant |table'| == n
      invariant forall c :: 0 <= c < n ==> |table'[c]| == 64
      invariant forall c :: 0 <= c < n && c !in s.comps[..ci] ==> table'[c] == table[c]
      invariant forall c, k :: 0 <= c < n && c in s.comps[..ci] && 0 <= k < 64 ==>
        table'[c][k] == if s.ss <= k <= s.se then s.al else table[c][k]
      invariant forall i :: 0 <= i < ci ==> ComponentFollows(before, s, s.comps[i])
    {
      var c := s.comps[ci];
      NotYet(n, s.comps, ci);
      var good, row := CheckComponent(s, table'[c], c, before);
      if !good {
        return false, table';
      }
      table' := table'[c := row];
      assert s.comps[..ci + 1] == s.comps[..ci] + [c];
    }
    assert s.comps[..|s.comps|] == s.comps;
    TableStep(n, s, table, table', before);
    return true, table';
  }

  lemma NotYet(n: nat, comps: seq<int>, ci: nat)
    requires CompsOk(n, comps) && ci < |comps|
    ensures comps[ci] !in comps[..ci]
  {
    Ascending(n, comps, ci);
  }

  lemma {:induction false} Ascending(n: nat, comps: seq<int>, j: nat)
    requires CompsOk(n, comps) && j < |comps|
    ensures forall i :: 0 <= i < j ==> comps[i] < comps[j]
  {
    if j > 0 {
      Ascending(n, comps, j - 1);
    }
  }

  lemma TableStep(n: nat, s: ScanInfo, table: seq<seq<int>>, table': seq<seq<int>>, before: seq<ScanInfo>)
    requires TableShows(table, n, before) && |table'| == n
    requires forall c :: 0 <= c < n ==> |table'[c]| == 64
    requires forall c :: 0 <= c < n && c !in s.comps ==> table'[c] == table[c]
    requires forall c, k :: 0 <= c < n && c in s.comps && 0 <= k < 64 ==>
      table'[c][k] == if s.ss <= k <= s.se then s.al else table[c][k]
    ensures TableShows(table', n, before + [s])
  {
    hide Level;
    forall c, k | 0 <= c < n && 0 <= k < 64
      ensures table'[c][k] == Level(before + [s], c, k)
    {
      LevelStep(before, s, c, k);
      assert RowShows(table[c], before, c);
    }
  }

  predicate SentShows(sent: seq<bool>, n: nat, scans: seq<ScanInfo>) {
    |sent| == n && forall c :: 0 <= c < n ==> (sent[c] <==> Level(scans, c, 0) >= 0)
  }

  /** A sequential scan sends whole blocks, of components not sent before. */
  method CheckSequentialScan(n: nat, s: ScanInfo, sent: seq<bool>, ghost before: seq<ScanInfo>)
      returns (ok: bool, sent': seq<bool>)
    requires CompsOk(n, s.comps) && SentShows(sent, n, before)
    ensures ok <==> SequentialScanOk(n, before, s)
    ensures ok ==> SentShows(sent', n, before + [s])
  {
    sent' := sent;
    if s.ss != 0 || s.se != 63 || s.ah != 0 || s.al != 0 {
      return false, sent';
    }
    for ci := 0 to |s.comps|
      invariant |sent'| == n
      invariant forall c :: 0 <= c < n ==> sent'[c] == (sent[c] || c in s.comps[..ci])
      invariant forall i :: 0 <= i < ci ==> Level(before, s.comps[i], 0) < 0
    {
      var c := s.comps[ci];
      NotYet(n, s.comps, ci);
      if sent'[c] {
        return false, sent';
      }
      sent' := sent'[c := true];
      assert s.comps[..ci + 1] == s.comps[..ci] + [c];
    }
    assert s.comps[..|s.comps|] == s.comps;
    forall c | 0 <= c < n
      ensures sent'[c] <==> Level(before + [s], c, 0) >= 0
    {
      LevelStep(before, s, c, 0);
    }
    return true, sent';
  }

  /** Accepts exactly the valid scripts; a rejected scan is the first one that breaks the rules. */
  method ValidateScript(n: nat, scans: seq<ScanInfo>) returns (v: Verdict)
    ensures v.Accepted? <==> ScriptOk(n, scans)
    ensures v.Accepted? ==> v.progressive == Progressive(scans)
    ensures v.BadScan? ==>
      && 1 <= v.scanno <= |scans|
      && ScansOk(n, Progressive(scans), scans[..v.scanno - 1])
      && !ScanOk(n, Progressive(scans), scans[..v.scanno - 1], scans[v.scanno - 1])
    ensures v.MissingData? ==> |scans| > 0 && ScansOk(n, Progressive(scans), scans) && !Complete(n, scans)
  {
    if |scans| <= 0 {
      return NoScans;
    }
    var progressive := scans[0].ss != 0 || scans[0].se != 63;
    var lastBitpos: seq<seq<int>>, sent: seq<bool> := [], [];
    if progressive {
      lastBitpos := seq(n, _ => seq(64, _ => -1));
    } else {
      sent := seq(n, _ => false);
    }
    for i := 0 to |scans|
      invariant ScansOk(n, progressive, scans[..i])
      invariant if progressive then TableShows(lastBitpos, n, scans[..i]) else SentShows(sent, n, scans[..i])
    {
      hide ScansOk, TableShows, SentShows, CompsOk, Complete, ScanScript.Progressive;
      ghost var before := scans[..i];
      assert scans[..i + 1] == before + [scans[i]];
      ScansOkSnoc(n, progressive, before, scans[i]);
      var good := CheckComps(n, scans[i]);
      if good {
        if progressive {
          good, lastBitpos := CheckProgressiveScan(n, scans[i], lastBitpos, before);
        } else {
          good, sent := CheckSequentialScan(n, scans[i], sent, before);
        }
      }
      if !good {
        BadScanRejects(n, scans, i);
        return BadScan(i + 1);
      }
    }
    assert scans[..|scans|] == scans;
    var complete := EverythingSent(n, progressive, lastBitpos, sent, scans);
    if !complete {
      return MissingData;
    }
    return Accepted(progressive);
  }

  lemma BadScanRejects(n: nat, scans: seq<ScanInfo>, i: nat)
    requires i < |scans| && !ScanOk(n, Progressive(scans), scans[..i], scans[i])
    ensures !ScriptOk(n, scans)
  {
    hide ScanOk, ScanScript.Progressive;
  }

  /** At least the DC data of each component must be in the script. */
  method EverythingSent(n: nat, progressive: bool, lastBitpos: seq<seq<int>>, sent: seq<bool>, ghost scans: seq<ScanInfo>)
      returns (ok: bool)
    requires if progressive then TableShows(lastBitpos, n, scans) else SentShows(sent, n, scans)
    ensures ok <==> Complete(n, scans)
  {
    if progressive {
      for ci := 0 to n
        invariant forall c :: 0 <= c < ci ==> Level(scans, c, 0) >= 0
      {
        assert RowShows(lastBitpos[ci], scans, ci);
        if lastBitpos[ci][0] < 0 {
          return false;
        }
      }
    } else {
      for ci := 0 to n
        invariant forall c :: 0 <= c < ci ==> Level(scans, c, 0) >= 0
      {
        if !sent[ci] {
          return false;
        }
      }
    }
    return true;
  }
}
