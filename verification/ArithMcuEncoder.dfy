/** The MCU encoding routines of jcarith.c. */
module ArithMcuEncoder {
  import opened Powers
  import opened CodeInterval
  import opened Coefficients
  import opened SuccessiveApproximation
  import opened ArithModel
  import opened ArithEncoder

  class McuEncoder {
    const arith: Encoder
    const scan: Scan
    var lastDc: seq<int>        // last DC value of each component
    var dcContext: seq<nat>     // conditioning category of each component

    ghost var plan: seq<Decision>   // all decisions of the segment, coded or still owed
    ghost var owed: seq<Decision>   // the decisions that remain to be coded

    ghost predicate Planned()
      reads this`plan, this`owed, arith
    {
      arith.Valid() && arith.coded + owed == plan
    }

    constructor (scan: Scan)
      requires ScanOk(scan)
      ensures fresh(this) && fresh(arith) && arith.Valid() && arith.coded == [] && arith.before == []
      ensures this.scan == scan && DcState(lastDc, dcContext) == StartDc(scan)
    {
      arith := new Encoder();
      this.scan := scan;
      lastDc, dcContext := seq(|scan.comps|, _ => 0), seq(|scan.comps|, _ => 0);
    }

    /** Forgets the interval before. */
    method Reset()
      modifies this`lastDc, this`dcContext
      ensures DcState(lastDc, dcContext) == StartDc(scan)
    {
      lastDc, dcContext := seq(|scan.comps|, _ => 0), seq(|scan.comps|, _ => 0);
    }

    /** Codes the next decision of the plan. */
    method Put(bin: Bin, val: Bit, ghost more: seq<Decision>)
      requires Planned() && owed == [Decision(bin, val)] + more
      modifies this`owed, arith
      ensures Planned() && owed == more && arith.before == old(arith.before)
    {
      hide Encoder.Valid;
      arith.Encode(bin, val);
      owed := more;
    }

    /** One decision for each bit of v below its top bit, moving up one bin and doubling m each time. */
    method EncodeCategory(area: Area, tbl: nat, x: nat, v: nat, m: nat, ghost more: seq<Decision>)
        returns (x': nat, m': nat)
      requires Planned() && owed == Ones(area, tbl, x, BitLength(v / 2)) + more
      modifies this`owed, arith
      ensures Planned() && owed == more && arith.before == old(arith.before)
      ensures x' == x + BitLength(v / 2) && m' == m * Pow2(BitLength(v / 2))
    {
      hide Ones, BitLength, Pow2, Planned;
      x', m' := x, m;
      var v2: nat := v / 2;
      while v2 != 0
        invariant Planned() && owed == Ones(area, tbl, x', BitLength(v2)) + more && arith.before == old(arith.before)
        invariant x' + BitLength(v2) == x + BitLength(v / 2)
        invariant m' * Pow2(BitLength(v2)) == m * Pow2(BitLength(v / 2))
      {
        OnesStep(area, tbl, x', v2, more);
        DoubleStep(m', BitLength(v2));
        Put(Place(area, tbl, x'), 1, Ones(area, tbl, x' + 1, BitLength(v2 / 2)) + more);
        m' := 2 * m';
        x' := x' + 1;
        v2 := v2 / 2;
      }
      OnesStep(area, tbl, x', 0, more);
      DoubleStep(m', 0);
    }

    /** The bits of v below the top bit m, at one bin. */
    method EncodePattern(bin: Bin, v: nat, m: nat, ghost bits: nat, ghost more: seq<Decision>)
      requires Planned() && owed == Pattern(bin, v, bits) + more
      requires m / 2 == if bits == 0 then 0 else Pow2(bits - 1)
      modifies this`owed, arith
      ensures Planned() && owed == more && arith.before == old(arith.before)
    {
      hide Pattern, Pow2, Planned;
      var mask: nat := m / 2;
      ghost var left := bits;
      while mask != 0
        invariant Planned() && owed == Pattern(bin, v, left) + more && arith.before == old(arith.before)
        invariant mask == if left == 0 then 0 else Pow2(left - 1)
        decreases left
      {
        PatternStep(bin, v, left, more);
        left := left - 1;
        Put(bin, v / mask % 2, Pattern(bin, v, left) + more);
        mask := mask / 2;
      }
      PatternStep(bin, v, 0, more);
    }

    /** Ends a category and sends the bits below the top bit. */
    method EncodeTail(area: Area, tbl: nat, x: nat, v: nat, m: nat, ghost bits: nat, ghost more: seq<Decision>)
      requires Planned()
      requires owed == [Decision(Place(area, tbl, x), 0)] + (Pattern(Place(area, tbl, x + 14), v, bits) + more)
      requires m / 2 == if bits == 0 then 0 else Pow2(bits - 1)
      modifies this`owed, arith
      ensures Planned() && owed == more && arith.before == old(arith.before)
    {
      hide Pattern, Pow2, Planned;
      Put(Place(area, tbl, x), 0, Pattern(Place(area, tbl, x + 14), v, bits) + more);
      EncodePattern(Place(area, tbl, x + 14), v, m, bits, more);
    }

    method EncodeDcMagnitude(tbl: nat, st: nat, v: nat, ghost more: seq<Decision>) returns (m: nat)
      requires Planned() && owed == DcMagnitude(tbl, st, v) + more
      modifies this`owed, arith
      ensures Planned() && owed == more && arith.before == old(arith.before)
      ensures m == TopBit(v)
    {
      hide Ones, Pattern, BitLength, Pow2, Planned, DcMagnitude, Category, TopBit;
      DcMagnitudeStep(tbl, st, v, more);
      TopBitHalf(v);
      PatternStep(Dc(tbl, st + 14), v, 0, more);
      m := 0;
      var x := st;
      ghost var bits := 0;
      if v != 0 {
        BitLengthStep(v);
        bits := BitLength(v / 2);
        CategoryParts(DcArea, tbl, 20, bits, v, bits, more);
        Put(Dc(tbl, st), 1, Category(DcArea, tbl, 20, bits, v, bits) + more);
        x, m := EncodeCategory(DcArea, tbl, 20, v, 1,
          [Decision(Dc(tbl, 20 + bits), 0)] + (Pattern(Dc(tbl, 20 + bits + 14), v, bits) + more));
      }
      EncodeTail(DcArea, tbl, x, v, m, bits, more);
    }

    method EncodeAcMagnitude(tbl: nat, kx: nat, k: nat, v: nat, ghost more: seq<Decision>)
      requires k >= 1
      requires Planned() && owed == AcMagnitude(tbl, kx, k, v) + more
      modifies this`owed, arith
      ensures Planned() && owed == more && arith.before == old(arith.before)
    {
      hide Ones, Pattern, BitLength, Pow2, Planned, AcMagnitude, Category, TopBit;
      AcMagnitudeStep(tbl, kx, k, v, more);
      TopBitHalf(v);
      var x: nat := 3 * (k - 1) + 2;
      PatternStep(Ac(tbl, x + 14), v, 0, more);
      var m: nat := 0;
      ghost var bits: nat := 0;
      if v != 0 {
        BitLengthStep(v);
        Put(Ac(tbl, x), 1, owed[1..]);
        m := 1;
        var v2: nat := v / 2;
        if v2 != 0 {
          BitLengthStep(v2);
          bits := BitLength(v2);
          ghost var ones: nat, x1 := BitLength(v2 / 2), if k <= kx then 189 else 217;
          CategoryParts(AcArea, tbl, x1, ones, v, bits, more);
          Put(Ac(tbl, x), 1, Category(AcArea, tbl, x1, ones, v, bits) + more);
          x, m := EncodeCategory(AcArea, tbl, if k <= kx then 189 else 217, v2, 2,
            [Decision(Ac(tbl, x1 + ones), 0)] + (Pattern(Ac(tbl, x1 + ones + 14), v, bits) + more));
        }
      }
      EncodeTail(AcArea, tbl, x, v, m, bits, more);
    }

    /** Encodes a DC difference and keeps the prediction and its conditioning category. */
    method EncodeDc(ci: nat, value: int, ghost more: seq<Decision>)
      requires ScanOk(scan) && DcStateOk(scan, DcState(lastDc, dcContext)) && ci < |scan.comps|
      requires Planned() && owed == DcDecisions(scan.comps[ci].dcTbl, dcContext[ci], value - lastDc[ci]) + more
      modifies this`owed, this`lastDc, this`dcContext, arith
      ensures Planned() && owed == more && arith.before == old(arith.before)
      ensures DcState(lastDc, dcContext) == AfterDc(scan, old(DcState(lastDc, dcContext)), ci, value)
    {
      hide BitLength, Pow2, Planned, DcDecisions, DcMagnitude, TopBit;
      var tbl, st := scan.comps[ci].dcTbl, dcContext[ci];
      var v := value - lastDc[ci];
      DcDecisionsStep(tbl, st, v, more);
      if v == 0 {
        Put(Dc(tbl, st), 0, more);
        dcContext := dcContext[ci := 0];
      } else {
        ghost var rest := DcMagnitude(tbl, st + 2 + SignBit(v), Abs(v) - 1) + more;
        Put(Dc(tbl, st), 1, [Decision(Dc(tbl, st + 1), SignBit(v))] + rest);
        lastDc := lastDc[ci := value];
        var m;
        if v > 0 {
          Put(Dc(tbl, st + 1), 0, rest);
          dcContext := dcContext[ci := 4];
          m := EncodeDcMagnitude(tbl, st + 2, v - 1, more);
        } else {
          v := -v;
          Put(Dc(tbl, st + 1), 1, rest);
          dcContext := dcContext[ci := 8];
          m := EncodeDcMagnitude(tbl, st + 3, v - 1, more);
        }
        if m < Pow2(scan.cond.dcL[tbl]) / 2 {
          dcContext := dcContext[ci := 0];
        } else if m > Pow2(scan.cond.dcU[tbl]) / 2 {
          dcContext := dcContext[ci := dcContext[ci] + 8];
        }
      }
    }

    /** The last index up to se of a coefficient that is not zero after a shift by al; 0 if there is none. */
    method LastNonzero(b: Block, se: nat, al: nat) returns (ke: nat)
      requires se < 64
      ensures ke <= se
      ensures ke > 0 ==> Scale(At(b, ke), al) != 0
      ensures forall j :: ke < j <= se ==> Scale(At(b, j), al) == 0
    {
      hide Pow2, At;
      ke := se;
      while ke > 0
        invariant ke <= se
        invariant forall j :: ke < j <= se ==> Scale(At(b, j), al) == 0
      {
        StageBefore(At(b, ke), al);
        if Abs(At(b, ke)) / Pow2(al) != 0 {
          break;
        }
        ke := ke - 1;
      }
    }

    /** Encodes the coefficients ss..se of a block, each shifted by al. */
    method EncodeAcBand(tbl: nat, kx: nat, b: Block, ss: nat, se: nat, al: nat, ghost more: seq<Decision>)
      requires 1 <= ss && se < 64
      requires Planned() && owed == AcFrom(tbl, kx, Scaled(b, al), ss, se) + more
      modifies this`owed, arith
      ensures Planned() && owed == more && arith.before == old(arith.before)
    {
      hide Pow2, Planned, AcFrom, AcRun, AcMagnitude, Scale, At;
      ghost var z := Scaled(b, al);
      var ke := LastNonzero(b, se, al);
      var k := ss;
      while k <= ke
        invariant 1 <= k
        invariant Planned() && owed == AcFrom(tbl, kx, z, k, se) + more && arith.before == old(arith.before)
      {
        AcFromStep(tbl, kx, z, k, se, more);
        assert z[ke] != 0;
        Put(Ac(tbl, 3 * (k - 1)), 0, AcRun(tbl, kx, z, k, se) + more);
        k := EncodeZeroRun(tbl, kx, b, k, se, al, ke, more);
        EncodeNonzero(tbl, kx, At(b, k), k, al, AcFrom(tbl, kx, z, k + 1, se) + more);
        k := k + 1;
      }
      AcFromStep(tbl, kx, z, k, se, more);
      if k <= se {
        Put(Ac(tbl, 3 * (k - 1)), 1, more);
      }
    }

    /** Steps over zero coefficients to the next one that is not zero. */
    method EncodeZeroRun(tbl: nat, kx: nat, b: Block, k0: nat, se: nat, al: nat, ghost ke: nat, ghost more: seq<Decision>)
        returns (k: nat)
      requires 1 <= k0 <= ke <= se < 64 && Scale(At(b, ke), al) != 0
      requires !AllZero(Scaled(b, al), k0, se)
      requires Planned() && owed == AcRun(tbl, kx, Scaled(b, al), k0, se) + more
      modifies this`owed, arith
      ensures k0 <= k <= ke && Scale(At(b, k), al) != 0
      ensures Planned() && arith.before == old(arith.before)
      ensures owed == [Decision(Ac(tbl, 3 * (k - 1) + 1), 1)]
        + ([Decision(Fixed, SignBit(Scale(At(b, k), al)))]
        + (AcMagnitude(tbl, kx, k, Abs(Scale(At(b, k), al)) - 1) + (AcFrom(tbl, kx, Scaled(b, al), k + 1, se) + more)))
    {
      hide Pow2, Planned, AcFrom, AcRun, AcMagnitude, Scale, At, AllZero;
      ghost var z := Scaled(b, al);
      k := k0;
      while true
        invariant k0 <= k <= ke && !AllZero(z, k, se)
        invariant Planned() && owed == AcRun(tbl, kx, z, k, se) + more && arith.before == old(arith.before)
        decreases ke - k
      {
        AcRunStep(tbl, kx, z, k, se, more);
        if Scale(At(b, k), al) != 0 {
          break;
        }
        Put(Ac(tbl, 3 * (k - 1) + 1), 0, AcRun(tbl, kx, z, k + 1, se) + more);
        k := k + 1;
      }
    }

    /** Encodes that coefficient k is not zero, its sign, and its magnitude shifted by al. */
    method EncodeNonzero(tbl: nat, kx: nat, coef: Coef, k: nat, al: nat, ghost more: seq<Decision>)
      requires k >= 1 && Scale(coef, al) != 0
      requires Planned()
      requires owed == [Decision(Ac(tbl, 3 * (k - 1) + 1), 1)]
        + ([Decision(Fixed, SignBit(Scale(coef, al)))] + (AcMagnitude(tbl, kx, k, Abs(Scale(coef, al)) - 1) + more))
      modifies this`owed, arith
      ensures Planned() && owed == more && arith.before == old(arith.before)
    {
      hide Pow2, Planned, AcMagnitude, Scale;
      StageBefore(coef, al);
      ghost var rest := AcMagnitude(tbl, kx, k, Abs(Scale(coef, al)) - 1) + more;
      var v := Abs(coef) / Pow2(al);
      Put(Ac(tbl, 3 * (k - 1) + 1), 1, [Decision(Fixed, SignBit(Scale(coef, al)))] + rest);
      if coef >= 0 {
        Put(Fixed, 0, rest);
      } else {
        Put(Fixed, 1, rest);
      }
      EncodeAcMagnitude(tbl, kx, k, v - 1, more);
    }

    /** Encodes the refinement of coefficients ss..se from stage ah to stage al. */
    method EncodeAcRefineBand(tbl: nat, b: Block, ss: nat, se: nat, ah: nat, al: nat, ghost more: seq<Decision>)
      requires 1 <= ss && se < 64 && ah == al + 1
      requires Planned() && owed == RefineFrom(tbl, Scaled(b, al), ss, se) + more
      modifies this`owed, arith
      ensures Planned() && owed == more && arith.before == old(arith.before)
    {
      hide Pow2, Planned, RefineFrom, RefineRun, Scale, At;
      ghost var z := Scaled(b, al);
      var ke := LastNonzero(b, se, al);
      var kex := LastNonzero(b, ke, ah);
      forall j | 0 <= j <= se
        ensures Abs(z[j]) < 2 <==> Scale(At(b, j), ah) == 0
      {
        StageBefore(At(b, j), al);
      }
      var k := ss;
      while k <= ke
        invariant 1 <= k
        invariant Planned() && owed == RefineFrom(tbl, z, k, se) + more && arith.before == old(arith.before)
      {
        RefineFromStep(tbl, z, k, se, more);
        assert z[ke] != 0;
        assert k <= kex ==> Abs(z[kex]) >= 2;
        if k > kex {
          Put(Ac(tbl, 3 * (k - 1)), 0, RefineRun(tbl, z, k, se) + more);
        }
        k := EncodeRefineRun(tbl, b, k, se, al, ke, more);
      }
      RefineFromStep(tbl, z, k, se, more);
      if k <= se {
        Put(Ac(tbl, 3 * (k - 1)), 1, more);
      }
    }

    /** Zeros up to the next coefficient that is not zero, then its correction bit or its new sign. */
    method EncodeRefineRun(tbl: nat, b: Block, k0: nat, se: nat, al: nat, ghost ke: nat, ghost more: seq<Decision>)
        returns (k: nat)
      requires 1 <= k0 <= ke <= se < 64 && Scale(At(b, ke), al) != 0
      requires !AllZero(Scaled(b, al), k0, se)
      requires Planned() && owed == RefineRun(tbl, Scaled(b, al), k0, se) + more
      modifies this`owed, arith
      ensures k0 < k <= ke + 1
      ensures Planned() && arith.before == old(arith.before)
      ensures owed == RefineFrom(tbl, Scaled(b, al), k, se) + more
    {
      hide Pow2, Planned, RefineFrom, RefineRun, Scale, At, AllZero;
      ghost var z := Scaled(b, al);
      k := k0;
      while true
        invariant k0 <= k <= ke && !AllZero(z, k, se)
        invariant Planned() && owed == RefineRun(tbl, z, k, se) + more && arith.before == old(arith.before)
        decreases ke - k
      {
        RefineRunStep(tbl, z, k, se, more);
        if Scale(At(b, k), al) != 0 {
          break;
        }
        Put(Ac(tbl, 3 * (k - 1) + 1), 0, RefineRun(tbl, z, k + 1, se) + more);
        k := k + 1;
      }
      StageBefore(At(b, k), al);
      var v := Abs(At(b, k)) / Pow2(al);
      ghost var rest := RefineFrom(tbl, z, k + 1, se) + more;
      if v / 2 != 0 {
        Put(Ac(tbl, 3 * (k - 1) + 2), v % 2, rest);
      } else {
        Put(Ac(tbl, 3 * (k - 1) + 1), 1, [Decision(Fixed, SignBit(z[k]))] + rest);
        Put(Fixed, SignBit(At(b, k)), rest);
      }
      k := k + 1;
    }

    ghost predicate Ready()
      reads this, arith
    {
      arith.Valid() && ScanOk(scan) && DcStateOk(scan, DcState(lastDc, dcContext))
    }

    ghost method Plan(ds: seq<Decision>)
      requires arith.Valid()
      modifies this`plan, this`owed
      ensures Planned() && owed == ds + [] && plan == arith.coded + ds
    {
      owed := ds + [];
      plan := arith.coded + ds;
    }

    /** Sequential mode: encodes every coefficient of the blocks of one MCU. */
    method EncodeMcu(blocks: seq<Block>)
      requires Ready() && |blocks| == |scan.membership|
      modifies this, arith
      ensures Ready() && arith.before == old(arith.before)
      ensures arith.coded == old(arith.coded)
        + McuDecisions(scan, Sequential, old(DcState(lastDc, dcContext)), scan.membership, blocks)
      ensures DcState(lastDc, dcContext)
           == McuState(scan, Sequential, old(DcState(lastDc, dcContext)), scan.membership, blocks)
    {
      hide Planned, Encoder.Valid, BlockDecisions, DcDecisions, AcFrom, AfterDc, At, Scale;
      ghost var cis, s0 := scan.membership, DcState(lastDc, dcContext);
      Plan(McuDecisions(scan, Sequential, s0, cis, blocks));
      assert cis[0..] == cis && blocks[0..] == blocks;
      for blkn := 0 to |blocks|
        invariant Planned() && arith.before == old(arith.before) && DcStateOk(scan, DcState(lastDc, dcContext))
        invariant owed == McuDecisions(scan, Sequential, DcState(lastDc, dcContext), cis[blkn..], blocks[blkn..]) + []
        invariant McuState(scan, Sequential, DcState(lastDc, dcContext), cis[blkn..], blocks[blkn..])
               == McuState(scan, Sequential, s0, cis, blocks)
        invariant plan == old(arith.coded) + McuDecisions(scan, Sequential, s0, cis, blocks)
      {
        var ci, b := scan.membership[blkn], blocks[blkn];
        ghost var s := DcState(lastDc, dcContext);
        McuStep(scan, Sequential, s, cis, blocks, blkn);
        ghost var rest := McuDecisions(scan, Sequential, AfterDc(scan, s, ci, b[0]), cis[blkn + 1..],
          blocks[blkn + 1..]) + [];
        var tbl := scan.comps[ci].acTbl;
        BlockParts(scan, Sequential, s, ci, b, rest);
        EncodeDc(ci, b[0], AcFrom(tbl, scan.cond.acK[tbl], Scaled(b, 0), 1, 63) + rest);
        EncodeAcBand(tbl, scan.cond.acK[tbl], b, 1, 63, 0, rest);
      }
      FinishPlan();
    }

    /** First DC scan: encodes the DC values of the blocks of one MCU, shifted by al. */
    method EncodeMcuDcFirst(blocks: seq<Block>, al: nat)
      requires Ready() && |blocks| == |scan.membership|
      modifies this, arith
      ensures Ready() && arith.before == old(arith.before)
      ensures arith.coded == old(arith.coded)
        + McuDecisions(scan, DcFirst(al), old(DcState(lastDc, dcContext)), scan.membership, blocks)
      ensures DcState(lastDc, dcContext)
           == McuState(scan, DcFirst(al), old(DcState(lastDc, dcContext)), scan.membership, blocks)
    {
      hide Planned, Encoder.Valid, BlockDecisions, DcDecisions, AfterDc, Pow2;
      ghost var cis, s0 := scan.membership, DcState(lastDc, dcContext);
      Plan(McuDecisions(scan, DcFirst(al), s0, cis, blocks));
      assert cis[0..] == cis && blocks[0..] == blocks;
      for blkn := 0 to |blocks|
        invariant Planned() && arith.before == old(arith.before) && DcStateOk(scan, DcState(lastDc, dcContext))
        invariant owed == McuDecisions(scan, DcFirst(al), DcState(lastDc, dcContext), cis[blkn..], blocks[blkn..]) + []
        invariant McuState(scan, DcFirst(al), DcState(lastDc, dcContext), cis[blkn..], blocks[blkn..])
               == McuState(scan, DcFirst(al), s0, cis, blocks)
        invariant plan == old(arith.coded) + McuDecisions(scan, DcFirst(al), s0, cis, blocks)
      {
        var ci, m := scan.membership[blkn], blocks[blkn][0] / Pow2(al);
        ghost var s := DcState(lastDc, dcContext);
        McuStep(scan, DcFirst(al), s, cis, blocks, blkn);
        ghost var rest := McuDecisions(scan, DcFirst(al), AfterDc(scan, s, ci, m), cis[blkn + 1..],
          blocks[blkn + 1..]) + [];
        BlockParts(scan, DcFirst(al), s, ci, blocks[blkn], rest);
        EncodeDc(ci, m, rest);
      }
      FinishPlan();
    }

    /** First AC scan of a band: one block per MCU. */
    method EncodeMcuAcFirst(block: Block, ss: nat, se: nat, al: nat)
      requires Ready() && |scan.comps| >= 1
      requires 1 <= ss <= se < 64
      modifies this`plan, this`owed, arith
      ensures Ready() && arith.before == old(arith.before)
      ensures var tbl := scan.comps[0].acTbl;
        arith.coded == old(arith.coded) + AcFrom(tbl, scan.cond.acK[tbl], Scaled(block, al), ss, se)
    {
      hide Planned, Encoder.Valid, AcFrom;
      var tbl := scan.comps[0].acTbl;
      Plan(AcFrom(tbl, scan.cond.acK[tbl], Scaled(block, al), ss, se));
      EncodeAcBand(tbl, scan.cond.acK[tbl], block, ss, se, al, []);
      FinishPlan();
    }

    /** DC refinement scan: the al-th bit of each DC value. */
    method EncodeMcuDcRefine(blocks: seq<Block>, al: nat)
      requires Ready()
      modifies this`plan, this`owed, arith
      ensures Ready() && arith.before == old(arith.before)
      ensures arith.coded == old(arith.coded) + DcBits(blocks, al)
    {
      hide Planned, Encoder.Valid, DcBits, Pow2;
      Plan(DcBits(blocks, al));
      assert blocks[0..] == blocks;
      for blkn := 0 to |blocks|
        invariant Planned() && arith.before == old(arith.before)
        invariant owed == DcBits(blocks[blkn..], al) + [] && plan == old(arith.coded) + DcBits(blocks, al)
      {
        DcBitsStep(blocks, al, blkn, []);
        Put(Fixed, blocks[blkn][0] / Pow2(al) % 2, DcBits(blocks[blkn + 1..], al) + []);
      }
      DcBitsStep(blocks, al, |blocks|, []);
      FinishPlan();
    }

    /** AC refinement scan of a band: one block per MCU. */
    method EncodeMcuAcRefine(block: Block, ss: nat, se: nat, ah: nat, al: nat)
      requires Ready() && |scan.comps| >= 1
      requires 1 <= ss <= se < 64 && ah == al + 1
      modifies this`plan, this`owed, arith
      ensures Ready() && arith.before == old(arith.before)
      ensures arith.coded == old(arith.coded) + RefineFrom(scan.comps[0].acTbl, Scaled(block, al), ss, se)
    {
      hide Planned, Encoder.Valid, RefineFrom;
      Plan(RefineFrom(scan.comps[0].acTbl, Scaled(block, al), ss, se));
      EncodeAcRefineBand(scan.comps[0].acTbl, block, ss, se, ah, al, []);
      FinishPlan();
    }

    lemma FinishPlan()
      requires Planned() && owed == []
      ensures arith.Valid() && arith.coded == plan
    {
    }
  }
}
