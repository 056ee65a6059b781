/** The statistics areas are large enough: no decision of an MCU uses a bin past the end of its table. */
module ArithBins {
  import opened Powers
  import opened CodeInterval
  import opened Coefficients
  import opened SuccessiveApproximation
  import opened ArithModel

  predicate BinWithin(bin: Bin, dc: nat, ac: nat) {
    match bin
    case Dc(_, k) => k < dc
    case Ac(_, k) => k < ac
    case Fixed => true
  }

  predicate Within(ds: seq<Decision>, dc: nat, ac: nat) {
    forall i :: 0 <= i < |ds| ==> BinWithin(ds[i].bin, dc, ac)
  }

  lemma {:induction false} OnesWithin(area: Area, tbl: nat, x: nat, n: nat, dc: nat, ac: nat)
    requires n == 0 || BinWithin(Place(area, tbl, x + n - 1), dc, ac)
    ensures Within(Ones(area, tbl, x, n), dc, ac)
    decreases n
  {
    if n > 0 {
      OnesWithin(area, tbl, x + 1, n - 1, dc, ac);
    }
  }

  lemma {:induction false} PatternWithin(bin: Bin, v: nat, n: nat, dc: nat, ac: nat)
    requires BinWithin(bin, dc, ac)
    ensures Within(Pattern(bin, v, n), dc, ac)
  {
    hide Pow2;
    if n > 0 {
      PatternWithin(bin, v, n - 1, dc, ac);
    }
  }

  lemma CategoryWithin(area: Area, tbl: nat, x: nat, ones: nat, v: nat, bits: nat, dc: nat, ac: nat)
    requires BinWithin(Place(area, tbl, x + ones + 14), dc, ac)
    ensures Within(Category(area, tbl, x, ones, v, bits), dc, ac)
  {
    hide Ones, Pattern;
    OnesWithin(area, tbl, x, ones, dc, ac);
    PatternWithin(Place(area, tbl, x + ones + 14), v, bits, dc, ac);
  }

  /** A DC difference of up to n + 1 bits reaches bin n + 34 at most. */
  lemma DcWithin(tbl: nat, ctx: nat, diff: int, n: nat, ac: nat)
    requires ctx <= 16 && Abs(diff) <= Pow2(n)
    ensures Within(DcDecisions(tbl, ctx, diff), n + 34, ac)
  {
    hide Pow2, BitLength, Category;
    if Abs(diff) > 1 {
      BitLengthAtMost(Abs(diff) - 1, n);
      BitLengthStep(Abs(diff) - 1);
      var bits := BitLength(Abs(diff) - 1) - 1;
      CategoryWithin(DcArea, tbl, 20, bits, Abs(diff) - 1, bits, n + 34, ac);
    }
  }

  lemma AcMagnitudeWithin(tbl: nat, kx: nat, k: nat, v: nat, dc: nat)
    requires 1 <= k < 64 && v < 0x8000
    ensures Within(AcMagnitude(tbl, kx, k, v), dc, 245)
  {
    hide Pow2, BitLength, Category;
    if v >= 2 {
      BitLengthAtMost(v, 15);
      Pow2Values();
      BitLengthStep(v);
      BitLengthStep(v / 2);
      CategoryWithin(AcArea, tbl, if k <= kx then 189 else 217, BitLength(v) - 2, v, BitLength(v) - 1, dc, 245);
    }
  }

  predicate InRange(z: Zz) {
    forall k :: 0 <= k < 64 ==> Abs(z[k]) <= 0x8000
  }

  lemma {:induction false} AcFromWithin(tbl: nat, kx: nat, z: Zz, k: nat, se: nat, dc: nat)
    requires k >= 1 && se < 64 && InRange(z)
    ensures Within(AcFrom(tbl, kx, z, k, se), dc, 245)
    decreases 64 - k, 1
  {
    hide AcRun;
    if k <= se && !AllZero(z, k, se) {
      AcRunWithin(tbl, kx, z, k, se, dc);
    }
  }

  lemma {:induction false} AcRunWithin(tbl: nat, kx: nat, z: Zz, k: nat, se: nat, dc: nat)
    requires 1 <= k <= se < 64 && !AllZero(z, k, se) && InRange(z)
    ensures Within(AcRun(tbl, kx, z, k, se), dc, 245)
    decreases 64 - k, 0
  {
    hide AcFrom, AcMagnitude;
    AcRunStep(tbl, kx, z, k, se, []);
    if z[k] == 0 {
      AcRunWithin(tbl, kx, z, k + 1, se, dc);
    } else {
      AcMagnitudeWithin(tbl, kx, k, Abs(z[k]) - 1, dc);
      AcFromWithin(tbl, kx, z, k + 1, se, dc);
    }
  }

  lemma {:induction false} RefineFromWithin(tbl: nat, z: Zz, k: nat, se: nat, dc: nat)
    requires k >= 1 && se < 64
    ensures Within(RefineFrom(tbl, z, k, se), dc, 245)
    decreases 64 - k, 1
  {
    hide RefineRun;
    if k <= se && !AllZero(z, k, se) {
      RefineRunWithin(tbl, z, k, se, dc);
    }
  }

  lemma {:induction false} RefineRunWithin(tbl: nat, z: Zz, k: nat, se: nat, dc: nat)
    requires 1 <= k <= se < 64 && !AllZero(z, k, se)
    ensures Within(RefineRun(tbl, z, k, se), dc, 245)
    decreases 64 - k, 0
  {
    hide RefineFrom;
    RefineRunStep(tbl, z, k, se, []);
    if z[k] == 0 {
      RefineRunWithin(tbl, z, k + 1, se, dc);
    } else {
      RefineFromWithin(tbl, z, k + 1, se, dc);
    }
  }

  lemma ScaledInRange(b: Block, al: nat)
    ensures InRange(Scaled(b, al))
  {
    hide Pow2, At;
    forall k | 0 <= k < 64
      ensures Abs(Scaled(b, al)[k]) <= 0x8000
    {
      ShrinkFits(At(b, k), Pow2(al));
      StageBefore(At(b, k), al);
    }
  }

  lemma ShrinkFits(v: Coef, p: nat)
    requires p >= 1
    ensures Abs(v) / p <= 0x8000
  {
    DivisionShrinks(Abs(v), p);
  }

  lemma DivisionShrinks(x: nat, p: nat)
    requires p >= 1
    ensures x / p <= x
  {
    FloorProduct(x, p);
    MulMonotone(1, p, x / p);
  }

  predicate ContextsOk(s: DcState) {
    forall i :: 0 <= i < |s.ctx| ==> s.ctx[i] <= 16
  }

  predicate CoefState(s: DcState) {
    forall i :: 0 <= i < |s.last| ==> -0x8000 <= s.last[i] < 0x8000
  }

  lemma BlockWithin(scan: Scan, mode: Mode, s: DcState, ci: nat, b: Block, n: nat)
    requires ScanOk(scan) && DcStateOk(scan, s) && ci < |scan.comps| && ContextsOk(s)
    requires Abs(DcValue(mode, b) - s.last[ci]) <= Pow2(n)
    ensures Within(BlockDecisions(scan, mode, s, ci, b), n + 34, 245)
  {
    hide Pow2, DcDecisions, AcFrom, Scaled;
    DcWithin(scan.comps[ci].dcTbl, s.ctx[ci], DcValue(mode, b) - s.last[ci], n, 245);
    ScaledInRange(b, 0);
    var tbl := scan.comps[ci].acTbl;
    AcFromWithin(tbl, scan.cond.acK[tbl], Scaled(b, 0), 1, 63, n + 34);
  }

  lemma DcValueIsCoef(mode: Mode, b: Block)
    ensures -0x8000 <= DcValue(mode, b) < 0x8000
  {
    hide Pow2;
    if mode.DcFirst? {
      FloorDivision(b[0], Pow2(mode.al));
      QuotientFits(b[0], DcValue(mode, b), Pow2(mode.al));
    }
  }

  lemma QuotientFits(v: Coef, q: int, p: nat)
    requires p >= 1 && q * p <= v < q * p + p
    ensures -0x8000 <= q < 0x8000
  {
    if q >= 0x8000 {
      MulMonotone(0x8000, q, p);
    } else if q < -0x8000 {
      MulMonotone(q + 1, -0x8000, p);
    }
  }

  /**
    Any MCU stays within 50 DC bins and 245 AC bins, of the 64 and 256 that are allocated; an MCU that a
    decoder can follow stays within 49 DC bins.
  */
  lemma {:induction false} McuWithin(scan: Scan, mode: Mode, s: DcState, cis: seq<nat>, blocks: seq<Block>, fits: bool)
    requires ScanOk(scan) && DcStateOk(scan, s) && ContextsOk(s)
    requires |cis| == |blocks| && forall i :: 0 <= i < |cis| ==> cis[i] < |scan.comps|
    requires if fits then McuFits(scan, mode, s, cis, blocks) else CoefState(s)
    ensures Within(McuDecisions(scan, mode, s, cis, blocks), if fits then 49 else 50, 245)
    ensures ContextsOk(McuState(scan, mode, s, cis, blocks))
    ensures !fits ==> CoefState(McuState(scan, mode, s, cis, blocks))
    decreases |blocks|
  {
    hide Pow2, BlockDecisions;
    Pow2Values();
    if blocks != [] {
      DcValueIsCoef(mode, blocks[0]);
      BlockWithin(scan, mode, s, cis[0], blocks[0], if fits then 15 else 16);
      McuWithin(scan, mode, AfterDc(scan, s, cis[0], DcValue(mode, blocks[0])), cis[1..], blocks[1..], fits);
    }
  }
}
