/**
  The items of a progressive AC scan as a decoder meets them: what comes next in a band, and how many of the
  following bands an end-of-band run stands for.
*/
module RunsAhead {
  import opened Powers
  import opened Coefficients
  import opened HuffmanTokens
  import opened EobRuns

  // ---- runs of bands ----

  predicate AllQuiet(band: Band, zs: seq<Zz>)
    requires band.Ok()
  {
    forall i :: 0 <= i < |zs| ==> band.Quiet(zs[i])
  }

  /** The correction bits of quiet bands, in order. */
  function AllCorrections(band: Band, zs: seq<Zz>): seq<Bit>
    requires band.Ok()
  {
    if zs == [] then [] else band.Corrections(zs[0]) + AllCorrections(band, zs[1..])
  }

  /** What is still to come in the middle of a run: the corrections of its other bands, then the next run or band. */
  function Waiting(band: Band, zs: seq<Zz>, n: nat): seq<Item>
    requires band.Ok() && n <= |zs|
  {
    RawBits(AllCorrections(band, zs[..n])) + band.ScanItems(zs[n..], NO_RUN)
  }

  lemma RawSum(a: seq<Bit>, b: seq<Bit>)
    ensures RawBits(a + b) == RawBits(a) + RawBits(b)
  {
  }

  /** One more quiet band in front. */
  lemma QuietFirst(band: Band, zs: seq<Zz>, m: nat)
    requires band.Ok() && zs != [] && m < |zs| && band.Quiet(zs[0]) && AllQuiet(band, zs[1..][..m])
    ensures AllQuiet(band, zs[..m + 1]) && zs[1..][m..] == zs[m + 1..]
    ensures AllCorrections(band, zs[..m + 1]) == band.Corrections(zs[0]) + AllCorrections(band, zs[1..][..m])
  {
    hide Band.Quiet, Band.Corrections;
    var all, others := zs[..m + 1], zs[1..][..m];
    assert all[1..] == others;
    forall i | 0 <= i < |all|
      ensures band.Quiet(all[i])
    {
      assert i > 0 ==> all[i] == others[i - 1];
    }
  }

  lemma ScanStep(band: Band, zs: seq<Zz>, run: Run)
    requires band.Ok()
    ensures zs == [] ==> band.ScanItems(zs, run) == RunItems(run)
    ensures zs != [] && band.Quiet(zs[0]) ==>
      var longer := Run(run.count + 1, run.bits + band.Corrections(zs[0]));
      band.ScanItems(zs, run)
      == if Full(longer) then RunItems(longer) + band.ScanItems(zs[1..], NO_RUN) else band.ScanItems(zs[1..], longer)
    ensures zs != [] && !band.Quiet(zs[0]) ==>
      band.ScanItems(zs, run) == RunItems(run) + (band.Active(zs[0]) + band.ScanItems(zs[1..], band.Tail(zs[0])))
  {
    hide RunItems, Band.Quiet, Band.Corrections, Band.Active, Band.Tail, Full;
  }

  /** A pending run is sent with the number of quiet bands that follow, as far as it goes. */
  lemma {:induction false} RunAhead(band: Band, zs: seq<Zz>, run: Run) returns (m: nat)
    requires band.Ok() && RunOk(run) && run.count > 0
    ensures m <= |zs| && AllQuiet(band, zs[..m]) && run.count + m <= MAX_RUN
    ensures band.ScanItems(zs, run)
         == RunItems(Run(run.count + m, run.bits + AllCorrections(band, zs[..m]))) + band.ScanItems(zs[m..], NO_RUN)
    decreases |zs|
  {
    hide RunItems, Band.Quiet, Band.Corrections, Band.Active, Band.Tail, Band.ScanItems, RawBits, AllQuiet,
      AllCorrections;
    ScanStep(band, zs, run);
    RunsNowhere(band, zs, run);
    m := 0;
    if zs != [] && band.Quiet(zs[0]) {
      var longer := Run(run.count + 1, run.bits + band.Corrections(zs[0]));
      QuietKeeps(band, zs[0], run);
      if !Full(longer) {
        m := RunAhead(band, zs[1..], longer);
      } else {
        RunsNowhere(band, zs[1..], run);
        assert longer.bits + [] == longer.bits;
      }
      QuietFirst(band, zs, m);
      assert run.bits + band.Corrections(zs[0]) + AllCorrections(band, zs[1..][..m])
          == run.bits + (band.Corrections(zs[0]) + AllCorrections(band, zs[1..][..m]));
      m := m + 1;
    } else {
      ScanStep(band, zs, NO_RUN);
    }
  }

  lemma RunsNowhere(band: Band, zs: seq<Zz>, run: Run)
    requires band.Ok()
    ensures AllQuiet(band, zs[..0]) && AllCorrections(band, zs[..0]) == [] && zs[0..] == zs
    ensures Run(run.count + 0, run.bits + []) == run && RunItems(NO_RUN) == []
    ensures forall items: seq<Item> :: [] + items == items && items + [] == items
  {
  }

  lemma QuietKeeps(band: Band, z: Zz, run: Run)
    requires band.Ok() && RunOk(run) && band.Quiet(z)
    ensures var longer := Run(run.count + 1, run.bits + band.Corrections(z));
      longer.count <= MAX_RUN && (!Full(longer) ==> RunOk(longer))
  {
    hide Band.Quiet, Band.Corrections;
    RunStaysOk(band, z, run);
  }

  /** What follows the last new coefficient of a band: the run that its tail begins, if any, over m more bands. */
  function AfterBand(band: Band, tail: Run, others: seq<Zz>, m: nat): seq<Item>
    requires band.Ok() && m <= |others|
  {
    if tail == NO_RUN then Waiting(band, others, 0)
    else
      assert BitLength(1 + m) >= 1;
      var n := BitLength(1 + m) - 1;
      [Symbol(16 * n)]
      + ((if n > 0 then [Bits((1 + m) % Pow2(n), n)] else []) + (RawBits(tail.bits) + Waiting(band, others, m)))
  }

  /** The run that a tail begins, split at the end of its own band. */
  lemma RunAtTail(band: Band, zs: seq<Zz>, m: nat, bits: seq<Bit>)
    requires band.Ok() && m <= |zs|
    ensures var n := BitLength(1 + m) - 1;
      && BitLength(1 + m) >= 1
      && RunItems(Run(1 + m, bits + AllCorrections(band, zs[..m]))) + band.ScanItems(zs[m..], NO_RUN)
         == [Symbol(16 * n)]
            + ((if n > 0 then [Bits((1 + m) % Pow2(n), n)] else []) + (RawBits(bits) + Waiting(band, zs, m)))
      && (1 + m <= MAX_RUN ==> n <= 14)
  {
    hide Pow2, BitLength, Band.ScanItems, AllCorrections;
    BitLengthBounds(1 + m);
    BitLengthAtMost(1 + m, 15);
    Pow2Values();
    RawSum(bits, AllCorrections(band, zs[..m]));
    hide RawBits;
    assert RawBits(bits) + RawBits(AllCorrections(band, zs[..m])) + band.ScanItems(zs[m..], NO_RUN)
        == RawBits(bits) + Waiting(band, zs, m);
  }

  /** A run that a tail begins goes on over the quiet bands that follow. */
  lemma TailAhead(band: Band, tail: Run, others: seq<Zz>) returns (m: nat)
    requires band.Ok() && (tail == NO_RUN || (tail.count == 1 && RunOk(tail)))
    ensures m <= |others| && AllQuiet(band, others[..m]) && 1 + m <= MAX_RUN && (tail == NO_RUN ==> m == 0)
    ensures band.ScanItems(others, tail) == AfterBand(band, tail, others, m)
  {
    hide RunItems, Band.ScanItems, RawBits, AllQuiet, AllCorrections, Waiting, BitLength, Pow2, RunOk;
    m := 0;
    if tail == NO_RUN {
      WaitingNone(band, others);
      RunsNowhere(band, others, tail);
    } else {
      m := RunAhead(band, others, tail);
      RunAtTail(band, others, m, tail.bits);
    }
  }

  /** The items of the next block: what it has that is new, then the run that its tail begins, if any. */
  lemma BlockAhead(band: Band, zs: seq<Zz>) returns (m: nat)
    requires band.Ok() && zs != []
    ensures m < |zs| && AllQuiet(band, zs[1..][..m]) && 1 + m <= MAX_RUN
    ensures band.Tail(zs[0]) == NO_RUN ==> m == 0
    ensures band.ScanItems(zs, NO_RUN) == band.Active(zs[0]) + AfterBand(band, band.Tail(zs[0]), zs[1..], m)
  {
    hide RunItems, Band.Quiet, Band.Corrections, Band.Active, Band.Tail, Band.ScanItems, AllQuiet, AfterBand, RunOk;
    ScanStep(band, zs, NO_RUN);
    QuietTail(band, zs[0]);
    m := TailAhead(band, band.Tail(zs[0]), zs[1..]);
    NothingFirst(band.ScanItems(zs[1..], band.Tail(zs[0])));
    NothingFirst(band.Active(zs[0]) + band.ScanItems(zs[1..], band.Tail(zs[0])));
  }

  lemma NothingFirst(items: seq<Item>)
    ensures [] + items == items
  {
  }

  /** In a run, the next band's correction bits come first. */
  lemma WaitingNext(band: Band, zs: seq<Zz>, n: nat)
    requires band.Ok() && 0 < n <= |zs| && AllQuiet(band, zs[..n])
    ensures band.Quiet(zs[0]) && AllQuiet(band, zs[1..][..n - 1])
    ensures Waiting(band, zs, n) == RawBits(band.Corrections(zs[0])) + Waiting(band, zs[1..], n - 1)
  {
    hide Band.Quiet, Band.Corrections, Band.ScanItems;
    var all, others := zs[..n], zs[1..][..n - 1];
    assert all[1..] == others && all[0] == zs[0] && zs[1..][n - 1..] == zs[n..];
    assert forall i :: 0 <= i < |others| ==> others[i] == all[i + 1];
    RawSum(band.Corrections(zs[0]), AllCorrections(band, others));
  }

  /** Outside a run, the next band comes first. */
  lemma WaitingNone(band: Band, zs: seq<Zz>)
    requires band.Ok()
    ensures Waiting(band, zs, 0) == band.ScanItems(zs, NO_RUN)
  {
    hide Band.ScanItems;
    assert zs[0..] == zs && zs[..0] == [];
  }

  /** A quiet band counts as one whose tail is all of it. */
  lemma QuietTail(band: Band, z: Zz)
    requires band.Ok()
    ensures band.Quiet(z) ==>
      && band.Active(z) == [] && band.Tail(z) == Run(1, band.Corrections(z))
      && !Full(Run(0 + 1, [] + band.Corrections(z))) && [] + band.Corrections(z) == band.Corrections(z)
    ensures band.Tail(z) == NO_RUN || (band.Tail(z).count == 1 && RunOk(band.Tail(z)))
    ensures RunItems(NO_RUN) == []
  {
    if band.refine {
      CorrectLength(z, band.ss, band.se + 1);
      TailBits(z, band.ss, band.se, LastOne(z, band.ss, band.se), 0, []);
      if band.Quiet(z) {
        QuietBand(z, band.ss, band.se);
      }
    } else if band.Quiet(z) {
      FirstSkip(z, band.ss, band.se + 1, band.se, 0);
    }
  }

  // ---- first scans ----

  /** What comes next from k on, when j is the next coefficient that is not zero. */
  lemma FirstAhead(z: Zz, k: nat, se: nat, more: seq<Item>) returns (j: nat)
    requires k <= se < 64
    ensures k <= j <= se + 1 && (forall i :: k <= i < j ==> z[i] == 0) && (j <= se ==> z[j] != 0)
    ensures FirstItems(z, k, se, 0) + more ==
      if j > se then more
      else if j - k > 15 then [Symbol(0xF0)] + (FirstItems(z, k + 16, se, 0) + more)
      else
        [Symbol(16 * (j - k) + BitLength(Abs(z[j])))]
        + ([Bits(Extra(z[j]), BitLength(Abs(z[j])))] + (FirstItems(z, j + 1, se, 0) + more))
  {
    hide FirstItems, Extra, BitLength;
    j := k;
    while j <= se && z[j] == 0
      invariant k <= j <= se + 1 && forall i :: k <= i < j ==> z[i] == 0
    {
      j := j + 1;
    }
    FirstSkip(z, k, j, se, 0);
    if j > se {
      FirstEnd(z, se, j - k);
    } else {
      FirstStep(z, j, se, j - k, more);
      if j - k > 15 {
        FirstSkip(z, k + 16, j, se, 0);
      }
    }
  }

  lemma FirstEnd(z: Zz, se: nat, r: nat)
    requires se < 64
    ensures FirstItems(z, se + 1, se, r) == []
  {
  }

  // ---- refinement ----

  /** How many coefficients from k up to j are zero. */
  function ZeroCount(z: Zz, k: nat, j: nat): nat
    requires j <= 64
    decreases j - k
  {
    if k >= j then 0 else ZeroCount(z, k, j - 1) + if z[j - 1] == 0 then 1 else 0
  }

  lemma {:induction false} CorrectSnoc(z: Zz, k: nat, j: nat)
    requires k <= j < 64
    ensures Correct(z, k, j + 1) == Correct(z, k, j) + if Abs(z[j]) > 1 then [Abs(z[j]) % 2] else []
    decreases j - k
  {
    if k < j {
      CorrectSnoc(z, k + 1, j);
    } else {
      assert Correct(z, j + 1, j + 1) == [];
    }
  }

  /** The event that a walk from k meets next. */
  datatype Event = New | SixteenZeros | End

  predicate EventAt(z: Zz, k: nat, j: nat, se: nat, event: Event)
    requires k <= se < 64
  {
    && k <= j <= se + 1 && NoOnes(z, k, j)
    && match event
       case New => j <= se && Abs(z[j]) == 1 && ZeroCount(z, k, j) <= 15
       case SixteenZeros => j <= se && z[j] == 0 && ZeroCount(z, k, j) == 15
       case End => j == se + 1
  }

  /** A walk that has met no event: r zeros and the correction bits so far are put off. */
  predicate Strolls(z: Zz, k: nat, t: nat, se: nat, eob: nat)
    requires t <= se + 1 <= 64
  {
    var r, br := ZeroCount(z, k, t), Correct(z, k, t);
    && k <= t && NoOnes(z, k, t) && (r > 15 ==> t > eob) && r <= t - k
    && RefineItems(z, k, se, eob, 0, []) == RefineItems(z, t, se, eob, r, br)
    && RefineTail(z, k, se, eob, 0, []) == RefineTail(z, t, se, eob, r, br)
  }

  lemma StrollOn(z: Zz, k: nat, t: nat, se: nat, eob: nat)
    requires se < 64 && t <= se && Strolls(z, k, t, se, eob) && Abs(z[t]) != 1
    requires z[t] == 0 && ZeroCount(z, k, t) == 15 ==> t + 1 > eob
    ensures Strolls(z, k, t + 1, se, eob)
  {
    hide RefineItems, RefineTail, Correct;
    var r, br := ZeroCount(z, k, t), Correct(z, k, t);
    CorrectSnoc(z, k, t);
    if z[t] == 0 {
      RefineSkip(z, t, t + 1, se, eob, r, br);
      assert br + [] == br;
    } else {
      RefineStep(z, t, se, eob, r, br, []);
      NoMore(RefineItems(z, t, se, eob, r, br));
      NoMore(RefineItems(z, t + 1, se, eob, r, br + [Abs(z[t]) % 2]));
    }
  }

  lemma NoMore<T>(s: seq<T>)
    ensures s + [] == s
  {
  }

  /** At the sixteenth zero before a new coefficient, a run of sixteen zeros is due. */
  lemma ZerosDue(z: Zz, k: nat, j: nat, se: nat, eob: nat, more: seq<Item>)
    requires j < eob <= se < 64 && Abs(z[eob]) == 1 && z[j] == 0 && Strolls(z, k, j, se, eob) && ZeroCount(z, k, j) == 15
    ensures RefineItems(z, k, se, eob, 0, []) + more
         == [Symbol(0xF0)] + (RawBits(Correct(z, k, j)) + (RefineItems(z, j + 1, se, eob, 0, []) + more))
    ensures RefineTail(z, k, se, eob, 0, []) == RefineTail(z, j + 1, se, eob, 0, [])
  {
    hide RefineItems, RefineTail, Correct, RawBits, ZeroCount;
    var br := Correct(z, k, j);
    var t := j + 1;
    while z[t] == 0
      invariant j < t <= eob && forall i :: j <= i < t ==> z[i] == 0
      decreases eob - t
    {
      t := t + 1;
    }
    RefineSkip(z, j, t, se, eob, 15, br);
    RefineSkip(z, j + 1, t, se, eob, 0, []);
    RefineStep(z, t, se, eob, 15 + (t - j), br, more);
  }

  /** What a walk from k meets, and what is sent for it. */
  lemma RefineAhead(z: Zz, k: nat, ss: nat, se: nat, more: seq<Item>) returns (j: nat, event: Event)
    requires 1 <= ss <= k <= se < 64
    ensures EventAt(z, k, j, se, event)
    ensures var eob := LastOne(z, ss, se);
      var items, tail := RefineItems(z, k, se, eob, 0, []) + more, RefineTail(z, k, se, eob, 0, []);
      match event
      case New =>
        && items == [Symbol(16 * ZeroCount(z, k, j) + 1)]
           + ([SignItem(z[j])] + (RawBits(Correct(z, k, j)) + (RefineItems(z, j + 1, se, eob, 0, []) + more)))
        && tail == RefineTail(z, j + 1, se, eob, 0, [])
      case SixteenZeros =>
        && items == [Symbol(0xF0)] + (RawBits(Correct(z, k, j)) + (RefineItems(z, j + 1, se, eob, 0, []) + more))
        && tail == RefineTail(z, j + 1, se, eob, 0, [])
      case End => items == more && tail == Run(1, Correct(z, k, se + 1))
  {
    hide RefineItems, RefineTail, Correct, RawBits, ZeroCount, LastOne, SignItem;
    var eob := LastOne(z, ss, se);
    j := k;
    StrollStart(z, k, se, eob);
    while j <= se
      invariant k <= j <= se + 1 && Strolls(z, k, j, se, eob)
    {
      if Abs(z[j]) == 1 {
        OnesEnd(z, ss, se, j);
        RefineStep(z, j, se, eob, ZeroCount(z, k, j), Correct(z, k, j), more);
        return j, New;
      }
      if z[j] == 0 && ZeroCount(z, k, j) == 15 && j < eob {
        OnesEnd(z, ss, se, j);
        ZerosDue(z, k, j, se, eob, more);
        return j, SixteenZeros;
      }
      StrollOn(z, k, j, se, eob);
      j := j + 1;
    }
    event := End;
    StrollEnd(z, k, se, eob, more);
  }

  lemma OnesEnd(z: Zz, ss: nat, se: nat, j: nat)
    requires ss <= j <= se < 64
    ensures Abs(z[j]) == 1 ==> j <= LastOne(z, ss, se)
    ensures j < LastOne(z, ss, se) ==> Abs(z[LastOne(z, ss, se)]) == 1
  {
  }

  lemma StrollStart(z: Zz, k: nat, se: nat, eob: nat)
    requires k <= se < 64
    ensures Strolls(z, k, k, se, eob)
  {
  }

  lemma StrollEnd(z: Zz, k: nat, se: nat, eob: nat, more: seq<Item>)
    requires k <= se < 64 && Strolls(z, k, se + 1, se, eob)
    ensures RefineItems(z, k, se, eob, 0, []) + more == more
    ensures RefineTail(z, k, se, eob, 0, []) == Run(1, Correct(z, k, se + 1))
  {
    hide RefineItems, RefineTail;
    RefineEnd(z, se, eob, ZeroCount(z, k, se + 1), Correct(z, k, se + 1));
    SomethingLeft(z, k, se);
  }

  lemma {:induction false} SomethingLeft(z: Zz, k: nat, se: nat)
    requires k <= se < 64 && NoOnes(z, k, se + 1)
    ensures ZeroCount(z, k, se + 1) > 0 || Correct(z, k, se + 1) != []
  {
    CorrectSnoc(z, k, se);
  }

  lemma {:induction false} ZeroCountFront(z: Zz, k: nat, j: nat)
    requires k < j <= 64
    ensures ZeroCount(z, k, j) == (if z[k] == 0 then 1 else 0) + ZeroCount(z, k + 1, j)
    decreases j - k
  {
    if k < j - 1 {
      ZeroCountFront(z, k, j - 1);
    }
  }

  /** The correction bits of a stretch, from its first coefficient. */
  lemma CorrectFront(z: Zz, k: nat, j: nat, more: seq<Item>)
    requires k <= j <= 64
    ensures RawBits(Correct(z, k, j)) + more ==
      if k == j then more
      else if Abs(z[k]) > 1 then RawBits([Abs(z[k]) % 2]) + (RawBits(Correct(z, k + 1, j)) + more)
      else RawBits(Correct(z, k + 1, j)) + more
  {
    if k < j && Abs(z[k]) > 1 {
      RawSum([Abs(z[k]) % 2], Correct(z, k + 1, j));
    }
  }
}
