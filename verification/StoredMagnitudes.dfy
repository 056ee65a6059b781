/**
  What becomes of the magnitude 2^15 in a refinement scan. The encoder of jcphuff.c stores magnitudes in 16-bit words,
  where 2^15 turns negative, and its walk takes the coefficient for one that is new. Such a scan is sent with one new
  coefficient too many, so it is what the specification says exactly when no such coefficient is in the band.
*/
module StoredMagnitudes {
  import opened Powers
  import opened Coefficients
  import opened SuccessiveApproximation
  import opened EobRuns
  import opened ProgressiveScans

  /** How many new coefficients the items announce. */
  function News(ts: seq<Item>): nat {
    if ts == [] then 0 else (if ts[0].Symbol? && ts[0].s % 16 == 1 then 1 else 0) + News(ts[1..])
  }

  lemma {:induction false} NewsSum(a: seq<Item>, b: seq<Item>)
    ensures News(a + b) == News(a) + News(b)
  {
    if a == [] {
      assert a + b == b;
    } else {
      NewsSum(a[1..], b);
      assert (a + b)[1..] == a[1..] + b;
    }
  }

  lemma {:induction false} NoNews(ts: seq<Item>)
    requires forall i :: 0 <= i < |ts| ==> ts[i].Symbol? ==> ts[i].s % 16 == 0
    ensures News(ts) == 0
  {
    if ts != [] {
      NoNews(ts[1..]);
    }
  }

  lemma NoNewsInRun(run: Run)
    ensures News(RunItems(run)) == 0
  {
    hide BitLength, Pow2;
    NoNews(RunItems(run));
  }

  /** How many coefficients from k up to se become nonzero. */
  function Ones(z: Zz, k: nat, se: nat): nat
    requires se < 64
    decreases 64 - k
  {
    if k > se then 0 else (if Abs(z[k]) == 1 then 1 else 0) + Ones(z, k + 1, se)
  }

  lemma {:induction false} NoOnesCount(z: Zz, k: nat, se: nat)
    requires se < 64
    ensures Ones(z, k, se) == 0 <==> NoOnes(z, k, se + 1)
    decreases 64 - k
  {
    if k <= se {
      NoOnesCount(z, k + 1, se);
    }
  }

  lemma {:induction false} NewsInBand(z: Zz, k: nat, se: nat, eob: nat, r: nat, br: seq<Bit>)
    requires se < 64
    ensures News(RefineItems(z, k, se, eob, r, br)) == Ones(z, k, se)
    decreases 64 - k, r
  {
    if k > se {
    } else if z[k] == 0 {
      NewsInBand(z, k + 1, se, eob, r + 1, br);
    } else if r > 15 && k <= eob {
      var rest := RefineItems(z, k, se, eob, r - 16, []);
      NewsInBand(z, k, se, eob, r - 16, []);
      NoNews([Symbol(0xF0)] + RawBits(br));
      NewsSum([Symbol(0xF0)] + RawBits(br), rest);
    } else if Abs(z[k]) > 1 {
      NewsInBand(z, k + 1, se, eob, r, br + [Abs(z[k]) % 2]);
    } else {
      var head, rest := [Symbol(16 * r + 1), SignItem(z[k])], RefineItems(z, k + 1, se, eob, 0, []);
      NewsInBand(z, k + 1, se, eob, 0, []);
      NoNews([SignItem(z[k])] + RawBits(br));
      assert head + RawBits(br) == [Symbol(16 * r + 1)] + ([SignItem(z[k])] + RawBits(br));
      NewsSum([Symbol(16 * r + 1)], [SignItem(z[k])] + RawBits(br));
      NewsSum(head + RawBits(br), rest);
    }
  }

  /** The specification announces just the coefficients that become nonzero. */
  lemma NewsInBlock(band: Band, z: Zz, run: Run)
    requires band.Ok() && band.refine
    ensures News(band.BlockItems(z, run)) == Ones(z, band.ss, band.se)
  {
    hide RunItems, RefineItems, LastOne, Correct;
    NoOnesCount(z, band.ss, band.se);
    NoNewsInRun(run);
    NoNewsInRun(Run(run.count + 1, run.bits + band.Corrections(z)));
    NewsInBand(z, band.ss, band.se, LastOne(z, band.ss, band.se), 0, []);
    NewsSum(RunItems(run), RefineItems(z, band.ss, band.se, LastOne(z, band.ss, band.se), 0, []));
  }

  /** The encoder announces those its walk takes for new. */
  lemma NewsSent(band: Band, z: Zz, run: Run)
    requires band.Ok() && band.refine
    ensures News(band.SentItems(z, run)) == Ones(band.Walked(z), band.ss, band.se)
  {
    hide RunItems, RefineItems, LastOne, Correct, Band.Walked, Band.BlockItems;
    NoNewsInRun(run);
    NewsInBlock(band, z, run);
    NewsInBand(band.Walked(z), band.ss, band.se, LastOne(z, band.ss, band.se), 0, []);
    NewsSum(RunItems(run), RefineItems(band.Walked(z), band.ss, band.se, LastOne(z, band.ss, band.se), 0, []));
  }

  lemma {:induction false} OnesWalked(band: Band, z: Zz, k: nat)
    requires band.Ok() && band.refine && band.ss <= k
    ensures Ones(band.Walked(z), k, band.se) >= Ones(z, k, band.se)
    ensures Ones(band.Walked(z), k, band.se) == Ones(z, k, band.se) <==>
      forall i :: k <= i <= band.se ==> Abs(z[i]) != 0x8000
    decreases 64 - k
  {
    if k <= band.se {
      OnesWalked(band, z, k + 1);
    }
  }

  /** What is sent for a block is what the specification says exactly when no coefficient of the band is too large. */
  lemma SentDiffers(band: Band, z: Zz, run: Run)
    requires band.Ok()
    ensures band.SentItems(z, run) == band.BlockItems(z, run) <==> band.Refinable(z)
  {
    if band.refine {
      hide Band.BlockItems, Band.Walked, Band.SentItems;
      NewsInBlock(band, z, run);
      NewsSent(band, z, run);
      OnesWalked(band, z, band.ss);
      if band.Refinable(z) {
        BlockSent(band, z, run);
      }
    }
  }

  lemma BlockSent(band: Band, z: Zz, run: Run)
    requires band.Ok() && band.Refinable(z)
    ensures band.SentItems(z, run) == band.BlockItems(z, run)
  {
    hide Band.BlockItems;
  }

  /** How many new coefficients there are in a scan, as the walk sees it or as it is. */
  function ScanOnes(band: Band, zs: seq<Zz>, walked: bool): nat
    requires band.Ok()
  {
    if zs == [] then 0
    else Ones(if walked then band.Walked(zs[0]) else zs[0], band.ss, band.se) + ScanOnes(band, zs[1..], walked)
  }

  lemma {:induction false} NewsInScan(band: Band, zs: seq<Zz>, run: Run)
    requires band.Ok() && band.refine
    ensures News(band.ScanItems(zs, run)) == ScanOnes(band, zs, false)
    decreases |zs|
  {
    hide Band.BlockItems, Band.BlockRun, RunItems, Band.Walked;
    if zs == [] {
      NoNewsInRun(run);
    } else {
      NewsInBlock(band, zs[0], run);
      NewsInScan(band, zs[1..], band.BlockRun(zs[0], run));
      NewsSum(band.BlockItems(zs[0], run), band.ScanItems(zs[1..], band.BlockRun(zs[0], run)));
    }
  }

  lemma {:induction false} NewsSentScan(band: Band, zs: seq<Zz>, run: Run)
    requires band.Ok() && band.refine
    ensures News(band.SentScan(zs, run)) == ScanOnes(band, zs, true)
    decreases |zs|
  {
    hide Band.SentItems, Band.SentRun, RunItems, Band.Walked;
    if zs == [] {
      NoNewsInRun(run);
    } else {
      NewsSent(band, zs[0], run);
      NewsSentScan(band, zs[1..], band.SentRun(zs[0], run));
      NewsSum(band.SentItems(zs[0], run), band.SentScan(zs[1..], band.SentRun(zs[0], run)));
    }
  }

  lemma {:induction false} ScanOnesWalked(band: Band, zs: seq<Zz>)
    requires band.Ok() && band.refine
    ensures ScanOnes(band, zs, true) >= ScanOnes(band, zs, false)
    ensures ScanOnes(band, zs, true) == ScanOnes(band, zs, false) <==> AllRefinable(band, zs)
  {
    hide Band.Walked, Band.Refinable;
    if zs != [] {
      OnesWalked(band, zs[0], band.ss);
      RefinableAt(band, zs[0]);
      ScanOnesWalked(band, zs[1..]);
      assert AllRefinable(band, zs) <==> band.Refinable(zs[0]) && AllRefinable(band, zs[1..]) by {
        assert forall j :: 0 < j < |zs| ==> zs[j] == zs[1..][j - 1];
      }
    }
  }

  lemma RefinableAt(band: Band, z: Zz)
    requires band.Ok() && band.refine
    ensures band.Refinable(z) <==> forall i :: band.ss <= i <= band.se ==> Abs(z[i]) != 0x8000
  {
  }

  /** A whole scan is sent as the specification says exactly when no coefficient of any band is too large. */
  lemma ScanDiffers(band: Band, zs: seq<Zz>, run: Run)
    requires band.Ok()
    ensures band.SentScan(zs, run) == band.ScanItems(zs, run) <==> AllRefinable(band, zs)
  {
    hide Band.ScanItems, Band.SentScan, Band.Refinable;
    if band.refine {
      NewsInScan(band, zs, run);
      NewsSentScan(band, zs, run);
      ScanOnesWalked(band, zs);
    } else {
      FirstRefinable(band, zs);
    }
    if AllRefinable(band, zs) {
      SentExactly(band, zs, run);
    }
  }

  lemma FirstRefinable(band: Band, zs: seq<Zz>)
    requires band.Ok() && !band.refine
    ensures AllRefinable(band, zs)
  {
  }

  /** Only the last refinement, that of bit 0, can meet such a coefficient, and just the coefficient -0x8000 is one. */
  lemma RefinableExactly(band: Band, b: Block, al: nat)
    requires band.Ok()
    ensures band.Refinable(Scaled(b, al)) <==>
      !(band.refine && al == 0 && exists k :: band.ss <= k <= band.se && At(b, k) == -0x8000)
  {
    hide At, Scale;
    forall k | 0 <= k < 64
      ensures Abs(Scaled(b, al)[k]) == 0x8000 <==> al == 0 && At(b, k) == -0x8000
    {
      StageBefore(At(b, k), al);
      LargestMagnitude(At(b, k), al);
    }
  }

  lemma LargestMagnitude(v: Coef, al: nat)
    ensures Abs(v) / Pow2(al) == 0x8000 <==> al == 0 && v == -0x8000
  {
    var a: nat := Abs(v);
    if al > 0 {
      var p := Pow2(al - 1);
      assert Pow2(al) == 2 * p;
      hide Pow2;
      Halved(a, 2 * p);
    }
  }

  lemma Halved(a: nat, d: nat)
    requires d >= 2 && a <= 0x8000
    ensures a / d < 0x8000
  {
    var q := a / d;
    assert q * d <= a;
    MulMonotone(2, d, q);
  }

  /**
    One block, whose only coefficient other than zero is -0x8000, refined by bit 0: a new coefficient, not a
    correction.
  */
  lemma RefusedInstance(b: Block)
    requires At(b, 1) == -0x8000 && forall k :: 2 <= k < 64 ==> At(b, k) == 0
    ensures var band, z := Band(true, 1, 63), Scaled(b, 0);
      && band.Ok() && !band.Refinable(z)
      && band.BlockItems(z, NO_RUN) == [] && band.BlockRun(z, NO_RUN) == Run(1, [0])
      && band.SentItems(z, NO_RUN) == [Symbol(1), SignItem(-1)] && band.SentRun(z, NO_RUN) == Run(1, [])
  {
    var z := Scaled(b, 0);
    assert Pow2(0) == 1;
    hide At;
    assert z[1] == -0x8000 && forall k :: 2 <= k < 64 ==> z[k] == 0;
    SpecifiedInstance(z);
    SentInstance(z);
  }

  lemma SpecifiedInstance(z: Zz)
    requires z[1] == -0x8000 && forall k :: 2 <= k < 64 ==> z[k] == 0
    ensures var band := Band(true, 1, 63);
      band.BlockItems(z, NO_RUN) == [] && band.BlockRun(z, NO_RUN) == Run(1, [0])
  {
    hide RunItems, RefineItems, RefineTail, LastOne;
    CorrectZeros(z, 2);
    assert Correct(z, 1, 64) == [0];
  }

  lemma SentInstance(z: Zz)
    requires z[1] == -0x8000 && forall k :: 2 <= k < 64 ==> z[k] == 0
    ensures var band := Band(true, 1, 63);
      && !band.Refinable(z) && band.SentItems(z, NO_RUN) == [Symbol(1), SignItem(-1)]
      && band.SentRun(z, NO_RUN) == Run(1, [])
  {
    hide RefineItems, RefineTail, LastOne, Correct;
    var band := Band(true, 1, 63);
    var w := band.Walked(z);
    assert Abs(z[1]) == 0x8000;
    assert w[1] == -1 && forall k :: 2 <= k < 64 ==> w[k] == 0;
    OnlyZeros(z, 63);
    WalkInstance(w);
  }

  lemma WalkInstance(w: Zz)
    requires w[1] == -1 && forall k :: 2 <= k < 64 ==> w[k] == 0
    ensures RefineItems(w, 1, 63, 1, 0, []) == [Symbol(1), SignItem(-1)] && RefineTail(w, 1, 63, 1, 0, []) == Run(1, [])
  {
    RefineSkip(w, 2, 64, 63, 1, 0, []);
  }

  lemma {:induction false} OnlyZeros(z: Zz, se: nat)
    requires 1 <= se < 64 && Abs(z[1]) > 1 && forall k :: 2 <= k < 64 ==> z[k] == 0
    ensures LastOne(z, 1, se) == 1
  {
    if se > 1 {
      OnlyZeros(z, se - 1);
    }
  }

  lemma {:induction false} CorrectZeros(z: Zz, k: nat)
    requires 2 <= k <= 64 && forall i :: 2 <= i < 64 ==> z[i] == 0
    ensures Correct(z, k, 64) == []
    decreases 64 - k
  {
    if k < 64 {
      CorrectZeros(z, k + 1);
    }
  }
}
