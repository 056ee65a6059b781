/**
  The binary decisions that stand for coefficients, after Rec. ITU-T T.81 sections F.1.4 and G.1.3:
  which bin each decision is made under, and which way it goes.
*/
module ArithModel {
  import opened Powers
  import opened CodeInterval
  import opened Coefficients
  import opened SuccessiveApproximation

  datatype Area = DcArea | AcArea

  function Place(area: Area, tbl: nat, k: nat): Bin {
    if area.DcArea? then Dc(tbl, k) else Ac(tbl, k)
  }

  // ---- magnitudes: Figures F.8 and F.9 ----

  /** One decisions at n bins in a row. */
  function Ones(area: Area, tbl: nat, x: nat, n: nat): seq<Decision>
    decreases n
  {
    if n == 0 then [] else [Decision(Place(area, tbl, x), 1)] + Ones(area, tbl, x + 1, n - 1)
  }

  /** The low n bits of v, high bit first, all at one bin. */
  function Pattern(bin: Bin, v: nat, n: nat): seq<Decision> {
    if n == 0 then [] else [Decision(bin, v / Pow2(n - 1) % 2)] + Pattern(bin, v, n - 1)
  }

  /** A category reached after some ones, closed by a zero, then the bits below the top bit of v. */
  function Category(area: Area, tbl: nat, x: nat, ones: nat, v: nat, bits: nat): seq<Decision> {
    Ones(area, tbl, x, ones) + [Decision(Place(area, tbl, x + ones), 0)]
    + Pattern(Place(area, tbl, x + ones + 14), v, bits)
  }

  /** A DC magnitude less one: Table F.4 puts the category bins at X1 = 20. */
  function DcMagnitude(tbl: nat, st: nat, v: nat): seq<Decision> {
    if v == 0 then [Decision(Dc(tbl, st), 0)]
    else [Decision(Dc(tbl, st), 1)] + Category(DcArea, tbl, 20, BitLength(v) - 1, v, BitLength(v) - 1)
  }

  /** An AC magnitude less one at zigzag index k: the category bins depend on whether k is at most Kx. */
  function AcMagnitude(tbl: nat, kx: nat, k: nat, v: nat): seq<Decision>
    requires k >= 1
  {
    var st := 3 * (k - 1) + 2;
    if v == 0 then [Decision(Ac(tbl, st), 0)]
    else if v == 1 then [Decision(Ac(tbl, st), 1), Decision(Ac(tbl, st), 0)]
    else
      assert BitLength(v / 2) >= 1;
      [Decision(Ac(tbl, st), 1), Decision(Ac(tbl, st), 1)]
      + Category(AcArea, tbl, if k <= kx then 189 else 217, BitLength(v) - 2, v, BitLength(v) - 1)
  }

  // ---- DC differences: Figure F.4 ----

  function DcDecisions(tbl: nat, ctx: nat, diff: int): seq<Decision> {
    if diff == 0 then [Decision(Dc(tbl, ctx), 0)]
    else
      [Decision(Dc(tbl, ctx), 1), Decision(Dc(tbl, ctx + 1), SignBit(diff))]
      + DcMagnitude(tbl, ctx + 2 + SignBit(diff), Abs(diff) - 1)
  }

  /** The top bit of v as a number, zero for zero. */
  function TopBit(v: nat): nat {
    if v == 0 then 0 else Pow2(BitLength(v) - 1)
  }

  /** Section F.1.4.4.1.2: the conditioning category of the next difference. */
  function DcContext(lower: nat, upper: nat, diff: int): (ctx: nat)
    ensures ctx in {0, 4, 8, 12, 16}
  {
    if diff == 0 || TopBit(Abs(diff) - 1) < Pow2(lower) / 2 then 0
    else if TopBit(Abs(diff) - 1) > Pow2(upper) / 2 then 12 + 4 * SignBit(diff)
    else 4 + 4 * SignBit(diff)
  }

  // ---- AC coefficients of a band: Figure F.5 ----

  function AcFrom(tbl: nat, kx: nat, z: Zz, k: nat, se: nat): seq<Decision>
    requires k >= 1 && se < 64
    decreases 64 - k, 1
  {
    if k > se then []
    else if AllZero(z, k, se) then [Decision(Ac(tbl, 3 * (k - 1)), 1)]
    else [Decision(Ac(tbl, 3 * (k - 1)), 0)] + AcRun(tbl, kx, z, k, se)
  }

  /** From k on, up to and including the next coefficient that is not zero. */
  function AcRun(tbl: nat, kx: nat, z: Zz, k: nat, se: nat): seq<Decision>
    requires 1 <= k <= se < 64
    requires !AllZero(z, k, se)
    decreases 64 - k, 0
  {
    var s0 := Ac(tbl, 3 * (k - 1) + 1);
    if z[k] == 0 then [Decision(s0, 0)] + AcRun(tbl, kx, z, k + 1, se)
    else
      [Decision(s0, 1)] + [Decision(Fixed, SignBit(z[k]))] + AcMagnitude(tbl, kx, k, Abs(z[k]) - 1)
      + AcFrom(tbl, kx, z, k + 1, se)
  }

  // ---- refinement of AC coefficients: Figure G.10 ----

  /** No coefficient from k on was already nonzero in the stage before: k is past the EOBx index. */
  predicate NoneBefore(z: Zz, k: nat, se: nat)
    requires se < 64
  {
    forall j :: k <= j <= se ==> Abs(z[j]) < 2
  }

  function RefineFrom(tbl: nat, z: Zz, k: nat, se: nat): seq<Decision>
    requires k >= 1 && se < 64
    decreases 64 - k, 1
  {
    if k > se then []
    else if AllZero(z, k, se) then [Decision(Ac(tbl, 3 * (k - 1)), 1)]
    else
      (if NoneBefore(z, k, se) then [Decision(Ac(tbl, 3 * (k - 1)), 0)] else []) + RefineRun(tbl, z, k, se)
  }

  /** From k on, up to and including the next coefficient that is not zero: a correction bit, or a new sign. */
  function RefineRun(tbl: nat, z: Zz, k: nat, se: nat): seq<Decision>
    requires 1 <= k <= se < 64
    requires !AllZero(z, k, se)
    decreases 64 - k, 0
  {
    var st := 3 * (k - 1);
    if z[k] == 0 then [Decision(Ac(tbl, st + 1), 0)] + RefineRun(tbl, z, k + 1, se)
    else if Abs(z[k]) >= 2 then [Decision(Ac(tbl, st + 2), Abs(z[k]) % 2)] + RefineFrom(tbl, z, k + 1, se)
    else
      [Decision(Ac(tbl, st + 1), 1)] + ([Decision(Fixed, SignBit(z[k]))] + RefineFrom(tbl, z, k + 1, se))
  }

  /** Refinement of DC values: bit al of each, at the fixed estimate. */
  function DcBits(blocks: seq<Block>, al: nat): seq<Decision> {
    if blocks == [] then []
    else [Decision(Fixed, blocks[0][0] / Pow2(al) % 2)] + DcBits(blocks[1..], al)
  }

  // ---- MCUs ----

  datatype Component = Component(dcTbl: nat, acTbl: nat)

  /** Conditioning parameters of each table: DC bounds L and U, and Kx for AC. */
  datatype Conditioning = Conditioning(dcL: seq<nat>, dcU: seq<nat>, acK: seq<nat>)

  /** The scan: its components, which of them each block of an MCU belongs to, and the conditioning. */
  datatype Scan = Scan(comps: seq<Component>, membership: seq<nat>, cond: Conditioning)

  const NUM_ARITH_TBLS: nat := 16

  predicate ScanOk(scan: Scan) {
    && (forall i :: 0 <= i < |scan.membership| ==> scan.membership[i] < |scan.comps|)
    && (forall i :: 0 <= i < |scan.comps| ==>
          scan.comps[i].dcTbl < NUM_ARITH_TBLS && scan.comps[i].acTbl < NUM_ARITH_TBLS)
    && |scan.cond.dcL| == |scan.cond.dcU| == |scan.cond.acK| == NUM_ARITH_TBLS
  }

  /** Per component of the scan: the last DC value and the conditioning category. */
  datatype DcState = DcState(last: seq<int>, ctx: seq<nat>)

  predicate DcStateOk(scan: Scan, s: DcState) {
    |s.last| == |s.ctx| == |scan.comps|
  }

  function StartDc(scan: Scan): (s: DcState)
    ensures DcStateOk(scan, s)
  {
    DcState(seq(|scan.comps|, _ => 0), seq(|scan.comps|, _ => 0))
  }

  /** What is coded for each block: everything, or only the DC value after an arithmetic shift by al. */
  datatype Mode = Sequential | DcFirst(al: nat)

  function DcValue(mode: Mode, b: Block): int {
    if mode.Sequential? then b[0] else b[0] / Pow2(mode.al)
  }

  function AfterDc(scan: Scan, s: DcState, ci: nat, value: int): (r: DcState)
    requires ScanOk(scan) && DcStateOk(scan, s) && ci < |scan.comps|
    ensures DcStateOk(scan, r)
  {
    var tbl := scan.comps[ci].dcTbl;
    DcState(s.last[ci := value],
            s.ctx[ci := DcContext(scan.cond.dcL[tbl], scan.cond.dcU[tbl], value - s.last[ci])])
  }

  function BlockDecisions(scan: Scan, mode: Mode, s: DcState, ci: nat, b: Block): seq<Decision>
    requires ScanOk(scan) && DcStateOk(scan, s) && ci < |scan.comps|
  {
    var comp := scan.comps[ci];
    DcDecisions(comp.dcTbl, s.ctx[ci], DcValue(mode, b) - s.last[ci])
    + if mode.Sequential? then AcFrom(comp.acTbl, scan.cond.acK[comp.acTbl], Scaled(b, 0), 1, 63) else []
  }

  /** The decisions of the blocks of an MCU, in order. */
  function McuDecisions(scan: Scan, mode: Mode, s: DcState, cis: seq<nat>, blocks: seq<Block>): seq<Decision>
    requires ScanOk(scan) && DcStateOk(scan, s)
    requires |cis| == |blocks| && forall i :: 0 <= i < |cis| ==> cis[i] < |scan.comps|
    decreases |blocks|
  {
    if blocks == [] then []
    else
      BlockDecisions(scan, mode, s, cis[0], blocks[0])
      + McuDecisions(scan, mode, AfterDc(scan, s, cis[0], DcValue(mode, blocks[0])), cis[1..], blocks[1..])
  }

  function McuState(scan: Scan, mode: Mode, s: DcState, cis: seq<nat>, blocks: seq<Block>): (r: DcState)
    requires ScanOk(scan) && DcStateOk(scan, s)
    requires |cis| == |blocks| && forall i :: 0 <= i < |cis| ==> cis[i] < |scan.comps|
    ensures DcStateOk(scan, r)
    decreases |blocks|
  {
    if blocks == [] then s
    else McuState(scan, mode, AfterDc(scan, s, cis[0], DcValue(mode, blocks[0])), cis[1..], blocks[1..])
  }

  // ---- taking decision sequences apart, from the front ----

  lemma Assoc<T>(a: seq<T>, b: seq<T>, c: seq<T>)
    ensures (a + b) + c == a + (b + c)
  {
  }

  lemma OnesStep(area: Area, tbl: nat, x: nat, v: nat, more: seq<Decision>)
    ensures var ones := Ones(area, tbl, x, BitLength(v)) + more;
      if v == 0 then BitLength(v) == 0 && ones == more
      else
        && BitLength(v) == 1 + BitLength(v / 2)
        && ones == [Decision(Place(area, tbl, x), 1)] + (Ones(area, tbl, x + 1, BitLength(v / 2)) + more)
  {
  }

  lemma PatternStep(bin: Bin, v: nat, n: nat, more: seq<Decision>)
    ensures if n == 0 then Pattern(bin, v, n) + more == more
      else
        && Pattern(bin, v, n) + more == [Decision(bin, v / Pow2(n - 1) % 2)] + (Pattern(bin, v, n - 1) + more)
        && Pow2(n - 1) / 2 == if n == 1 then 0 else Pow2(n - 2)
  {
  }

  lemma CategoryParts(area: Area, tbl: nat, x: nat, ones: nat, v: nat, bits: nat, more: seq<Decision>)
    ensures Category(area, tbl, x, ones, v, bits) + more
         == Ones(area, tbl, x, ones)
            + ([Decision(Place(area, tbl, x + ones), 0)] + (Pattern(Place(area, tbl, x + ones + 14), v, bits) + more))
  {
    hide Ones, Pattern;
  }

  lemma DcMagnitudeStep(tbl: nat, st: nat, v: nat, more: seq<Decision>)
    ensures DcMagnitude(tbl, st, v) + more ==
      if v == 0 then [Decision(Dc(tbl, st), 0)] + more
      else
        [Decision(Dc(tbl, st), 1)] + (Category(DcArea, tbl, 20, BitLength(v) - 1, v, BitLength(v) - 1) + more)
  {
    hide Category, BitLength;
  }

  lemma BitLengthStep(v: nat)
    requires v != 0
    ensures BitLength(v) == 1 + BitLength(v / 2)
    ensures v == 1 <==> v / 2 == 0
  {
  }

  lemma AcMagnitudeStep(tbl: nat, kx: nat, k: nat, v: nat, more: seq<Decision>)
    requires k >= 1
    ensures v >= 2 ==> BitLength(v) >= 2
    ensures var st := Ac(tbl, 3 * (k - 1) + 2);
      AcMagnitude(tbl, kx, k, v) + more ==
      if v == 0 then [Decision(st, 0)] + more
      else if v == 1 then [Decision(st, 1)] + ([Decision(st, 0)] + more)
      else
        [Decision(st, 1)] + ([Decision(st, 1)]
        + (Category(AcArea, tbl, if k <= kx then 189 else 217, BitLength(v) - 2, v, BitLength(v) - 1) + more))
  {
    hide Category;
    if v >= 2 {
      BitLengthStep(v);
      BitLengthStep(v / 2);
    }
  }

  lemma AcFromStep(tbl: nat, kx: nat, z: Zz, k: nat, se: nat, more: seq<Decision>)
    requires k >= 1 && se < 64
    ensures AcFrom(tbl, kx, z, k, se) + more ==
      if k > se then more
      else if AllZero(z, k, se) then [Decision(Ac(tbl, 3 * (k - 1)), 1)] + more
      else [Decision(Ac(tbl, 3 * (k - 1)), 0)] + (AcRun(tbl, kx, z, k, se) + more)
  {
    hide AcRun, AllZero;
  }

  lemma AcRunStep(tbl: nat, kx: nat, z: Zz, k: nat, se: nat, more: seq<Decision>)
    requires 1 <= k <= se < 64 && !AllZero(z, k, se)
    ensures z[k] == 0 ==> k < se && !AllZero(z, k + 1, se)
    ensures var s0 := Ac(tbl, 3 * (k - 1) + 1);
      AcRun(tbl, kx, z, k, se) + more ==
      if z[k] == 0 then [Decision(s0, 0)] + (AcRun(tbl, kx, z, k + 1, se) + more)
      else
        [Decision(s0, 1)] + ([Decision(Fixed, SignBit(z[k]))]
        + (AcMagnitude(tbl, kx, k, Abs(z[k]) - 1) + (AcFrom(tbl, kx, z, k + 1, se) + more)))
  {
    hide AcMagnitude, AcFrom;
    if z[k] == 0 {
      assert !AllZero(z, k + 1, se);
    } else {
      var a, b, c := [Decision(Ac(tbl, 3 * (k - 1) + 1), 1)], [Decision(Fixed, SignBit(z[k]))],
        AcMagnitude(tbl, kx, k, Abs(z[k]) - 1);
      Assoc4(a, b, c, AcFrom(tbl, kx, z, k + 1, se), more);
    }
  }

  lemma Assoc4<T>(a: seq<T>, b: seq<T>, c: seq<T>, d: seq<T>, e: seq<T>)
    ensures (a + b + c + d) + e == a + (b + (c + (d + e)))
  {
  }

  lemma DcDecisionsStep(tbl: nat, ctx: nat, diff: int, more: seq<Decision>)
    ensures DcDecisions(tbl, ctx, diff) + more ==
      if diff == 0 then [Decision(Dc(tbl, ctx), 0)] + more
      else
        [Decision(Dc(tbl, ctx), 1)] + ([Decision(Dc(tbl, ctx + 1), SignBit(diff))]
        + (DcMagnitude(tbl, ctx + 2 + SignBit(diff), Abs(diff) - 1) + more))
  {
    hide DcMagnitude;
  }

  /** Halving the top bit leaves the mask of the first bit below it. */
  lemma TopBitHalf(v: nat)
    ensures var bits := if v == 0 then 0 else BitLength(v) - 1;
      TopBit(v) / 2 == if bits == 0 then 0 else Pow2(bits - 1)
    ensures if v == 0 then TopBit(v) == 0 else TopBit(v) == Pow2(BitLength(v / 2))
    ensures v >= 2 ==> TopBit(v) == 2 * Pow2(BitLength(v / 2 / 2))
  {
  }

  lemma RefineFromStep(tbl: nat, z: Zz, k: nat, se: nat, more: seq<Decision>)
    requires k >= 1 && se < 64
    ensures RefineFrom(tbl, z, k, se) + more ==
      if k > se then more
      else if AllZero(z, k, se) then [Decision(Ac(tbl, 3 * (k - 1)), 1)] + more
      else if NoneBefore(z, k, se) then [Decision(Ac(tbl, 3 * (k - 1)), 0)] + (RefineRun(tbl, z, k, se) + more)
      else RefineRun(tbl, z, k, se) + more
  {
    hide RefineRun, AllZero, NoneBefore;
  }

  lemma RefineRunStep(tbl: nat, z: Zz, k: nat, se: nat, more: seq<Decision>)
    requires 1 <= k <= se < 64 && !AllZero(z, k, se)
    ensures z[k] == 0 ==> k < se && !AllZero(z, k + 1, se)
    ensures var st := 3 * (k - 1);
      RefineRun(tbl, z, k, se) + more ==
      if z[k] == 0 then [Decision(Ac(tbl, st + 1), 0)] + (RefineRun(tbl, z, k + 1, se) + more)
      else if Abs(z[k]) >= 2 then
        [Decision(Ac(tbl, st + 2), Abs(z[k]) % 2)] + (RefineFrom(tbl, z, k + 1, se) + more)
      else
        [Decision(Ac(tbl, st + 1), 1)] + ([Decision(Fixed, SignBit(z[k]))] + (RefineFrom(tbl, z, k + 1, se) + more))
  {
    hide RefineFrom;
    if z[k] == 0 {
      assert !AllZero(z, k + 1, se);
    }
  }

  lemma DcBitsStep(blocks: seq<Block>, al: nat, i: nat, more: seq<Decision>)
    requires i <= |blocks|
    ensures DcBits(blocks[i..], al) + more ==
      if i == |blocks| then more
      else [Decision(Fixed, blocks[i][0] / Pow2(al) % 2)] + (DcBits(blocks[i + 1..], al) + more)
  {
    if i < |blocks| {
      assert blocks[i..][1..] == blocks[i + 1..];
    }
  }

  lemma McuStep(scan: Scan, mode: Mode, s: DcState, cis: seq<nat>, blocks: seq<Block>, i: nat)
    requires ScanOk(scan) && DcStateOk(scan, s)
    requires |cis| == |blocks| && forall i :: 0 <= i < |cis| ==> cis[i] < |scan.comps|
    requires i < |blocks|
    ensures var s' := AfterDc(scan, s, cis[i], DcValue(mode, blocks[i]));
      && McuDecisions(scan, mode, s, cis[i..], blocks[i..])
         == BlockDecisions(scan, mode, s, cis[i], blocks[i])
            + McuDecisions(scan, mode, s', cis[i + 1..], blocks[i + 1..])
      && McuState(scan, mode, s, cis[i..], blocks[i..]) == McuState(scan, mode, s', cis[i + 1..], blocks[i + 1..])
  {
    assert cis[i..][1..] == cis[i + 1..] && blocks[i..][1..] == blocks[i + 1..];
    hide BlockDecisions, AfterDc, DcValue;
  }

  lemma BlockParts(scan: Scan, mode: Mode, s: DcState, ci: nat, b: Block, more: seq<Decision>)
    requires ScanOk(scan) && DcStateOk(scan, s) && ci < |scan.comps|
    ensures var comp := scan.comps[ci];
      BlockDecisions(scan, mode, s, ci, b) + more
      == DcDecisions(comp.dcTbl, s.ctx[ci], DcValue(mode, b) - s.last[ci])
         + if mode.Sequential? then AcFrom(comp.acTbl, scan.cond.acK[comp.acTbl], Scaled(b, 0), 1, 63) + more else more
  {
    hide DcDecisions, AcFrom, DcValue, Scaled;
  }

  lemma OnesCount(area: Area, tbl: nat, x: nat, n: nat, more: seq<Decision>)
    ensures Ones(area, tbl, x, n) + more ==
      if n == 0 then more else [Decision(Place(area, tbl, x), 1)] + (Ones(area, tbl, x + 1, n - 1) + more)
  {
  }

  // ---- what a decoder can take back ----

  /** A decoder follows magnitudes up to 2^15. */
  predicate DiffFits(diff: int) {
    Abs(diff) <= 0x8000
  }

  lemma FitsInCategory(v: nat)
    ensures BitLength(v) <= 15 <==> v < 0x8000
  {
    BitLengthAtMost(v, 15);
    assert Pow2(15) == 0x8000;
  }

  /** Every DC difference of the MCU can be followed. */
  predicate McuFits(scan: Scan, mode: Mode, s: DcState, cis: seq<nat>, blocks: seq<Block>)
    requires ScanOk(scan) && DcStateOk(scan, s)
    requires |cis| == |blocks| && forall i :: 0 <= i < |cis| ==> cis[i] < |scan.comps|
    decreases |blocks|
  {
    blocks == [] ||
    (DiffFits(DcValue(mode, blocks[0]) - s.last[cis[0]])
     && McuFits(scan, mode, AfterDc(scan, s, cis[0], DcValue(mode, blocks[0])), cis[1..], blocks[1..]))
  }

  lemma McuFitsStep(scan: Scan, mode: Mode, s: DcState, cis: seq<nat>, blocks: seq<Block>, i: nat)
    requires ScanOk(scan) && DcStateOk(scan, s)
    requires |cis| == |blocks| && forall i :: 0 <= i < |cis| ==> cis[i] < |scan.comps|
    requires i < |blocks|
    ensures McuFits(scan, mode, s, cis[i..], blocks[i..]) <==>
      (DiffFits(DcValue(mode, blocks[i]) - s.last[cis[i]])
       && McuFits(scan, mode, AfterDc(scan, s, cis[i], DcValue(mode, blocks[i])), cis[i + 1..], blocks[i + 1..]))
  {
    assert cis[i..][1..] == cis[i + 1..] && blocks[i..][1..] == blocks[i + 1..];
    hide AfterDc, DcValue, DiffFits;
  }

  /** The index a decoder finds in its own state answers the question the encoder asks of the original. */
  lemma StageBeforeBand(b0: Block, z: Zz, p: nat, ss: nat, se: nat, kex: nat)
    requires p >= 1 && 1 <= ss <= se < 64
    requires HoldsStageBefore(b0, z, p, ss, se)
    requires kex <= se && (kex > 0 ==> At(b0, kex) != 0) && forall j :: kex < j <= se ==> At(b0, j) == 0
    ensures forall k :: ss <= k <= se ==> (k > kex <==> NoneBefore(z, k, se))
  {
    hide At, Half;
    forall k | ss <= k <= se
      ensures k > kex <==> NoneBefore(z, k, se)
    {
      if k > kex {
        forall j | k <= j <= se
          ensures Abs(z[j]) < 2
        {
          HalfFacts(z[j], p);
        }
      } else {
        HalfFacts(z[kex], p);
      }
    }
  }

  lemma ZeroMeansNoneBefore(z: Zz, se: nat)
    requires se < 64
    ensures forall k: nat :: AllZero(z, k, se) ==> NoneBefore(z, k, se)
  {
  }

  lemma BitLengthOfOne()
    ensures BitLength(1) == 1
  {
    BitLengthStep(1);
  }

  lemma WrapSum(last: int, diff: int)
    ensures (last % 0x10000 + diff) % 0x10000 == (last + diff) % 0x10000
  {
    var q, r := (last % 0x10000 + diff) / 0x10000, (last % 0x10000 + diff) % 0x10000;
    assert last + diff == (last / 0x10000 + q) * 0x10000 + r;
    DivModUnique(last + diff, last / 0x10000 + q, r, 0x10000);
  }

  lemma McuEnd(scan: Scan, mode: Mode, s: DcState, cis: seq<nat>, blocks: seq<Block>)
    requires ScanOk(scan) && DcStateOk(scan, s)
    requires |cis| == |blocks| && forall i :: 0 <= i < |cis| ==> cis[i] < |scan.comps|
    ensures McuDecisions(scan, mode, s, cis[|cis|..], blocks[|blocks|..]) == []
    ensures McuState(scan, mode, s, cis[|cis|..], blocks[|blocks|..]) == s
    ensures McuFits(scan, mode, s, cis[|cis|..], blocks[|blocks|..])
  {
  }

  lemma AfterDcLast(scan: Scan, s: DcState, ci: nat, value: int)
    requires ScanOk(scan) && DcStateOk(scan, s) && ci < |scan.comps|
    ensures AfterDc(scan, s, ci, value).last[ci] == value
  {
  }
}
