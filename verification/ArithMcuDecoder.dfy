/** The MCU decoding routines of jdarith.c. */
module ArithMcuDecoder {
  import opened Powers
  import opened CodeInterval
  import opened Coefficients
  import opened SuccessiveApproximation
  import opened ArithModel
  import opened ArithDecoder

  class McuDecoder {
    const arith: Decoder
    const scan: Scan
    var lastDc: seq<nat>        // last DC value of each component, modulo 2^16
    var dcContext: seq<nat>     // conditioning category of each component
    var failed: bool            // a magnitude or spectral overflow was met: nothing more is decoded

    constructor (arith: Decoder, scan: Scan)
      requires ScanOk(scan)
      ensures fresh(this) && this.arith == arith && this.scan == scan
      ensures !failed && Matches(StartDc(scan))
    {
      this.arith := arith;
      this.scan := scan;
      lastDc, dcContext, failed := seq(|scan.comps|, _ => 0), seq(|scan.comps|, _ => 0), false;
    }

    /** Forgets the interval before. */
    method Reset()
      requires ScanOk(scan)
      modifies this
      ensures !failed && Matches(StartDc(scan))
    {
      lastDc, dcContext, failed := seq(|scan.comps|, _ => 0), seq(|scan.comps|, _ => 0), false;
    }

    /** Decodes the next decision, which the encoder made under the same bin. */
    method Take(bin: Bin, ghost bit: Bit, ghost more: seq<Decision>) returns (val: Bit)
      requires arith.Valid() && arith.pending == [Decision(bin, bit)] + more
      modifies arith
      ensures arith.Source() == old(arith.Source())
      ensures arith.Valid() && arith.pending == more && val == bit
    {
      hide Decoder.Valid;
      val := arith.Decode(bin);
    }

    /** Climbs the category bins while ones come in; the magnitude must stay below 2^15. */
    method DecodeCategory(area: Area, tbl: nat, x: nat, m: nat, ghost e: nat, ghost ones: nat, ghost more: seq<Decision>)
        returns (ok: bool, x': nat, m': nat)
      requires arith.Valid() && m == Pow2(e) && e < 15
      requires arith.pending == Ones(area, tbl, x, ones) + ([Decision(Place(area, tbl, x + ones), 0)] + more)
      modifies arith
      ensures arith.Source() == old(arith.Source())
      ensures arith.Valid()
      ensures ok <==> e + ones < 15
      ensures ok ==> arith.pending == more && x' == x + ones && m' == Pow2(e + ones)
    {
      hide Decoder.Valid, Ones, Pow2;
      x', m', ok := x, m, true;
      ghost var left: nat, last := ones, [Decision(Place(area, tbl, x + ones), 0)] + more;
      OnesCount(area, tbl, x', left, last);
      var val := Take(Place(area, tbl, x'), if left == 0 then 0 else 1, arith.pending[1..]);
      while val != 0
        invariant arith.Source() == old(arith.Source())
        invariant arith.Valid() && x' + left == x + ones && left <= ones
        invariant m' == Pow2(e + ones - left) && e + ones - left < 15
        invariant val == if left == 0 then 0 else 1
        invariant arith.pending == if left == 0 then more else Ones(area, tbl, x' + 1, left - 1) + last
        decreases left
      {
        Pow2Fifteen(e + ones - left);
        m' := 2 * m';
        if m' == 0x8000 {
          ok := false;
          return;
        }
        x' := x' + 1;
        left := left - 1;
        OnesCount(area, tbl, x', left, last);
        val := Take(Place(area, tbl, x'), if left == 0 then 0 else 1, arith.pending[1..]);
      }
    }

    /** The bits below the top bit m, at one bin. */
    method DecodePattern(bin: Bin, m: nat, ghost v: nat, ghost bits: nat, ghost more: seq<Decision>) returns (r: nat)
      requires arith.Valid() && arith.pending == Pattern(bin, v, bits) + more
      requires (m == 0 && v == 0 && bits == 0) || (m == Pow2(bits) && v / Pow2(bits) == 1)
      modifies arith
      ensures arith.Source() == old(arith.Source())
      ensures arith.Valid() && arith.pending == more && r == v
    {
      hide Decoder.Valid, Pattern, Pow2;
      r := m;
      var mask: nat := m / 2;
      ghost var left := bits;
      PatternStep(bin, v, left, more);
      MaskStart(m, v, bits);
      while mask != 0
        invariant arith.Source() == old(arith.Source())
        invariant arith.Valid() && arith.pending == Pattern(bin, v, left) + more
        invariant mask == if left == 0 then 0 else Pow2(left - 1)
        invariant r == v / Pow2(left) * Pow2(left)
        decreases left
      {
        PatternStep(bin, v, left, more);
        NextBit(v, left - 1);
        left := left - 1;
        var val := Take(bin, v / Pow2(left) % 2, Pattern(bin, v, left) + more);
        if val != 0 {
          r := r + mask;
        }
        mask := mask / 2;
      }
      PatternStep(bin, v, 0, more);
      MaskEnd(v);
    }

    /** Decodes a DC magnitude less one, and its top bit, which conditions the next difference. */
    method DecodeDcMagnitude(tbl: nat, st: nat, ghost v: nat, ghost more: seq<Decision>)
        returns (ok: bool, m: nat, x: nat, ghost bits: nat)
      requires arith.Valid() && arith.pending == DcMagnitude(tbl, st, v) + more
      modifies arith
      ensures arith.Source() == old(arith.Source())
      ensures arith.Valid() && (ok <==> v < 0x8000)
      ensures ok ==> m == TopBit(v) && arith.pending == Pattern(Dc(tbl, x + 14), v, bits) + more
      ensures (m == 0 && v == 0 && bits == 0) || (ok ==> m == Pow2(bits) && v / Pow2(bits) == 1)
    {
      hide Decoder.Valid, Ones, Pattern, BitLength, Pow2, DcMagnitude, Category, TopBit;
      DcMagnitudeStep(tbl, st, v, more);
      TopBitHalf(v);
      FitsInCategory(v);
      PatternStep(Dc(tbl, st + 14), v, 0, more);
      ok, x, bits := true, st, 0;
      m := Take(Dc(tbl, st), if v == 0 then 0 else 1, arith.pending[1..]);
      if m != 0 {
        BitLengthStep(v);
        TopBitIsOne(v);
        bits := BitLength(v / 2);
        CategoryParts(DcArea, tbl, 20, bits, v, bits, more);
        assert Pow2(0) == 1 by { DoubleStep(1, 0); }
        ok, x, m := DecodeCategory(DcArea, tbl, 20, m, 0, bits, Pattern(Dc(tbl, 20 + bits + 14), v, bits) + more);
      }
    }

    method DecodeAcMagnitude(tbl: nat, kx: nat, k: nat, ghost v: nat, ghost more: seq<Decision>)
        returns (ok: bool, r: nat)
      requires k >= 1
      requires arith.Valid() && arith.pending == AcMagnitude(tbl, kx, k, v) + more
      modifies arith
      ensures arith.Source() == old(arith.Source())
      ensures arith.Valid() && (ok <==> v < 0x8000)
      ensures ok ==> r == v && arith.pending == more
    {
      hide Decoder.Valid, Ones, Pattern, BitLength, Pow2, AcMagnitude, Category, TopBit;
      AcMagnitudeStep(tbl, kx, k, v, more);
      FitsInCategory(v);
      var x: nat := 3 * (k - 1) + 2;
      PatternStep(Ac(tbl, x + 14), v, 0, more);
      ok, r := true, 0;
      ghost var bits: nat := 0;
      var m: nat := Take(Ac(tbl, x), if v == 0 then 0 else 1, arith.pending[1..]);
      if m != 0 {
        BitLengthStep(v);
        TopBitIsOne(v);
        DoubleStep(1, 0);
        var next := Take(Ac(tbl, x), if v == 1 then 0 else 1, arith.pending[1..]);
        if next != 0 {
          BitLengthStep(v / 2);
          bits := BitLength(v / 2);
          ghost var ones: nat, x1 := BitLength(v / 2 / 2), if k <= kx then 189 else 217;
          CategoryParts(AcArea, tbl, x1, ones, v, bits, more);
          Pow2Fifteen(0);
          ok, x, m := DecodeCategory(AcArea, tbl, if k <= kx then 189 else 217, 2, 1, ones,
            Pattern(Ac(tbl, x1 + ones + 14), v, bits) + more);
          if !ok {
            return;
          }
        } else {
          BitLengthOfOne();
        }
      }
      r := DecodePattern(Ac(tbl, x + 14), m, v, bits, more);
    }

    ghost predicate Matches(s: DcState)
      reads this`lastDc, this`dcContext
    {
      && ScanOk(scan) && DcStateOk(scan, s)
      && dcContext == s.ctx && |lastDc| == |s.last|
      && forall i :: 0 <= i < |lastDc| ==> lastDc[i] == s.last[i] % 0x10000
    }

    /** Decodes a DC difference into the prediction, kept modulo 2^16. */
    method DecodeDc(ci: nat, ghost s: DcState, ghost value: int, ghost more: seq<Decision>) returns (ok: bool)
      requires Matches(s) && ci < |scan.comps|
      requires arith.Valid()
      requires arith.pending == DcDecisions(scan.comps[ci].dcTbl, s.ctx[ci], value - s.last[ci]) + more
      modifies this`lastDc, this`dcContext, this`failed, arith
      ensures arith.Source() == old(arith.Source())
      ensures arith.Valid() && (ok <==> DiffFits(value - s.last[ci])) && failed == (old(failed) || !ok)
      ensures ok ==> Matches(AfterDc(scan, s, ci, value)) && arith.pending == more
    {
      hide Decoder.Valid, Pattern, Pow2, DcDecisions, DcMagnitude, TopBit;
      ghost var diff := value - s.last[ci];
      var tbl, st := scan.comps[ci].dcTbl, dcContext[ci];
      DcDecisionsStep(tbl, st, diff, more);
      ok := true;
      var val := Take(Dc(tbl, st), if diff == 0 then 0 else 1, arith.pending[1..]);
      if val == 0 {
        dcContext := dcContext[ci := 0];
      } else {
        var sign: nat := Take(Dc(tbl, st + 1), SignBit(diff), arith.pending[1..]);
        var m, x;
        ghost var bits;
        ok, m, x, bits := DecodeDcMagnitude(tbl, st + 2 + sign, Abs(diff) - 1, more);
        if !ok {
          failed := true;
          return;
        }
        if m < Pow2(scan.cond.dcL[tbl]) / 2 {
          dcContext := dcContext[ci := 0];
        } else if m > Pow2(scan.cond.dcU[tbl]) / 2 {
          dcContext := dcContext[ci := 12 + sign * 4];
        } else {
          dcContext := dcContext[ci := 4 + sign * 4];
        }
        var v: int := DecodePattern(Dc(tbl, x + 14), m, Abs(diff) - 1, bits, more);
        v := v + 1;
        if sign != 0 {
          v := -v;
        }
        WrapSum(s.last[ci], diff);
        lastDc := lastDc[ci := (lastDc[ci] + v) % 0x10000];
      }
    }

    /** Steps over zero coefficients to the next one that is not zero; a valid band always has one. */
    method DecodeZeroRun(tbl: nat, ghost kx: nat, k0: nat, se: nat, ghost z: Zz, ghost more: seq<Decision>)
        returns (k: nat)
      requires 1 <= k0 <= se < 64 && !AllZero(z, k0, se)
      requires arith.Valid() && arith.pending == AcRun(tbl, kx, z, k0, se) + more
      modifies arith
      ensures arith.Source() == old(arith.Source())
      ensures k0 <= k <= se && z[k] != 0 && forall j :: k0 <= j < k ==> z[j] == 0
      ensures arith.Valid()
      ensures arith.pending == [Decision(Fixed, SignBit(z[k]))]
        + (AcMagnitude(tbl, kx, k, Abs(z[k]) - 1) + (AcFrom(tbl, kx, z, k + 1, se) + more))
    {
      hide Decoder.Valid, AcFrom, AcRun, AcMagnitude, AllZero;
      k := k0;
      while true
        invariant arith.Source() == old(arith.Source())
        invariant k0 <= k <= se && !AllZero(z, k, se) && forall j :: k0 <= j < k ==> z[j] == 0
        invariant arith.Valid() && arith.pending == AcRun(tbl, kx, z, k, se) + more
        decreases se - k
      {
        AcRunStep(tbl, kx, z, k, se, more);
        var val := Take(Ac(tbl, 3 * (k - 1) + 1), if z[k] == 0 then 0 else 1, arith.pending[1..]);
        if val != 0 {
          break;
        }
        k := k + 1;
        if k > se {
          assert false;
        }
      }
    }

    /** The sign and magnitude of coefficient k. */
    method DecodeNonzero(tbl: nat, kx: nat, k: nat, ghost c: int, ghost more: seq<Decision>) returns (v: int)
      requires k >= 1 && 1 <= Abs(c) <= 0x8000
      requires arith.Valid()
      requires arith.pending == [Decision(Fixed, SignBit(c))] + (AcMagnitude(tbl, kx, k, Abs(c) - 1) + more)
      modifies arith
      ensures arith.Source() == old(arith.Source())
      ensures arith.Valid() && arith.pending == more && v == c
    {
      hide Decoder.Valid, AcMagnitude;
      var sign := Take(Fixed, SignBit(c), arith.pending[1..]);
      var ok;
      ok, v := DecodeAcMagnitude(tbl, kx, k, Abs(c) - 1, more);
      v := v + 1;
      if sign != 0 {
        v := -v;
      }
    }

    /** Decodes the coefficients ss..se of a block and stores them shifted left by al. */
    method DecodeAcBand(tbl: nat, kx: nat, b0: Block, ss: nat, se: nat, al: nat, ghost z: Zz, ghost more: seq<Decision>)
        returns (b: Block)
      requires 1 <= ss <= se < 64
      requires arith.Valid() && arith.pending == AcFrom(tbl, kx, z, ss, se) + more
      requires forall j :: ss <= j <= se ==> At(b0, j) == 0
      requires FitsCoef(z, Pow2(al), ss, se)
      modifies arith
      ensures arith.Source() == old(arith.Source())
      ensures arith.Valid() && arith.pending == more
      ensures BandDone(b0, b, z, Pow2(al), ss, se + 1)
    {
      hide Decoder.Valid, Pow2, AcFrom, AcRun, AcMagnitude, At, BandDone, AllZero, FitsCoef;
      b := b0;
      ghost var p := Pow2(al);
      BandStart(b0, z, p, ss);
      var k := ss;
      while k <= se
        invariant arith.Source() == old(arith.Source())
        invariant ss <= k <= se + 1
        invariant arith.Valid() && arith.pending == AcFrom(tbl, kx, z, k, se) + more
        invariant BandDone(b0, b, z, p, ss, k)
      {
        AcFromStep(tbl, kx, z, k, se, more);
        var eob := Take(Ac(tbl, 3 * (k - 1)), if AllZero(z, k, se) then 1 else 0, arith.pending[1..]);
        if eob != 0 {
          BandRest(b0, b, z, p, ss, k, se);
          return;
        }
        ghost var k0 := k;
        k := DecodeZeroRun(tbl, kx, k, se, z, more);
        BandZeros(b0, b, z, p, ss, k0, k);
        MagnitudeFits(z, p, ss, se, k);
        var v := DecodeNonzero(tbl, kx, k, z[k], AcFrom(tbl, kx, z, k + 1, se) + more);
        ToCoefExact(z[k] * p, v * Pow2(al), 0);
        BandPut(b0, b, z, p, ss, k, ToCoef(v * Pow2(al)));
        b := Put(b, k, ToCoef(v * Pow2(al)));
        k := k + 1;
      }
      AcFromStep(tbl, kx, z, k, se, more);
    }

    /** The last index up to se of a coefficient that is not zero already; 0 if there is none. */
    method LastNonzero(b: Block, se: nat) returns (kex: nat)
      requires se < 64
      ensures kex <= se
      ensures kex > 0 ==> At(b, kex) != 0
      ensures forall j :: kex < j <= se ==> At(b, j) == 0
    {
      hide At;
      kex := se;
      while kex > 0
        invariant kex <= se
        invariant forall j :: kex < j <= se ==> At(b, j) == 0
      {
        if At(b, kex) != 0 {
          break;
        }
        kex := kex - 1;
      }
    }

    /** Refines the coefficients ss..se of a block, known at the stage before, by the bit of weight 2^al. */
    method DecodeAcRefineBand(tbl: nat, b0: Block, ss: nat, se: nat, al: nat, ghost z: Zz, ghost more: seq<Decision>)
        returns (b: Block)
      requires 1 <= ss <= se < 64
      requires arith.Valid() && arith.pending == RefineFrom(tbl, z, ss, se) + more
      requires HoldsStageBefore(b0, z, Pow2(al), ss, se) && FitsCoef(z, Pow2(al), ss, se)
      modifies arith
      ensures arith.Source() == old(arith.Source())
      ensures arith.Valid() && arith.pending == more
      ensures BandDone(b0, b, z, Pow2(al), ss, se + 1)
    {
      hide Decoder.Valid, Pow2, RefineFrom, RefineRun, At, BandDone, HoldsStageBefore, FitsCoef;
      b := b0;
      ghost var p := Pow2(al);
      BandStart(b0, z, p, ss);
      var kex := LastNonzero(b0, se);
      StageBeforeBand(b0, z, p, ss, se, kex);
      ZeroMeansNoneBefore(z, se);
      var k := ss;
      while k <= se
        invariant arith.Source() == old(arith.Source())
        invariant ss <= k <= se + 1
        invariant arith.Valid() && arith.pending == RefineFrom(tbl, z, k, se) + more
        invariant BandDone(b0, b, z, p, ss, k)
      {
        RefineFromStep(tbl, z, k, se, more);
        if k > kex {
          var eob := Take(Ac(tbl, 3 * (k - 1)), if AllZero(z, k, se) then 1 else 0, arith.pending[1..]);
          if eob != 0 {
            BandStill(b0, b, z, p, ss, k, se);
            return;
          }
        }
        b, k := DecodeRefineRun(tbl, b0, b, k, ss, se, al, z, more);
      }
      RefineFromStep(tbl, z, k, se, more);
    }

    /** Zeros up to the next coefficient that is not zero now, which is corrected or set. */
    method DecodeRefineRun(tbl: nat, ghost b0: Block, b1: Block, k0: nat, ghost ss: nat, se: nat, al: nat,
                           ghost z: Zz, ghost more: seq<Decision>)
        returns (b: Block, k: nat)
      requires 1 <= ss <= k0 <= se < 64 && !AllZero(z, k0, se)
      requires arith.Valid() && arith.pending == RefineRun(tbl, z, k0, se) + more
      requires HoldsStageBefore(b0, z, Pow2(al), ss, se) && FitsCoef(z, Pow2(al), ss, se)
      requires BandDone(b0, b1, z, Pow2(al), ss, k0)
      modifies arith
      ensures arith.Source() == old(arith.Source())
      ensures k0 < k <= se + 1
      ensures arith.Valid() && arith.pending == RefineFrom(tbl, z, k, se) + more
      ensures BandDone(b0, b, z, Pow2(al), ss, k)
    {
      hide Decoder.Valid, Pow2, RefineFrom, RefineRun, At, BandDone, Half, HoldsStageBefore, FitsCoef;
      b, k := b1, k0;
      ghost var p := Pow2(al);
      while true
        invariant arith.Source() == old(arith.Source())
        invariant k0 <= k <= se && !AllZero(z, k, se) && b == b1
        invariant arith.Valid() && arith.pending == RefineRun(tbl, z, k, se) + more
        invariant BandDone(b0, b, z, p, ss, k)
        decreases se - k
      {
        RefineRunStep(tbl, z, k, se, more);
        HalfFacts(z[k], p);
        BandAt(b0, z, p, ss, se, k);
        BandLookup(b0, b, z, p, ss, k);
        var coef: int := At(b, k);
        if coef != 0 {
          var bit := Take(Ac(tbl, 3 * (k - 1) + 2), Abs(z[k]) % 2, arith.pending[1..]);
          if bit != 0 {
            coef := if coef < 0 then coef - Pow2(al) else coef + Pow2(al);
          }
          BandPut(b0, b, z, p, ss, k, coef);
          b := Put(b, k, coef);
          break;
        }
        var now := Take(Ac(tbl, 3 * (k - 1) + 1), if z[k] == 0 then 0 else 1, arith.pending[1..]);
        if now != 0 {
          var sign := Take(Fixed, SignBit(z[k]), arith.pending[1..]);
          coef := if sign != 0 then 0 - Pow2(al) else Pow2(al);
          BandPut(b0, b, z, p, ss, k, coef);
          b := Put(b, k, coef);
          break;
        }
        BandZeros(b0, b, z, p, ss, k, k + 1);
        k := k + 1;
      }
      k := k + 1;
    }

    /** Nothing has gone wrong yet, and the decisions to come are ds and then more. */
    ghost predicate Expects(ds: seq<Decision>, more: seq<Decision>)
      reads this`failed, arith
    {
      !failed && arith.Valid() && arith.pending == ds + more
    }

    /** Decodes the AC coefficients of a block whose DC value is in place. */
    method DecodeBlockAc(ci: nat, b0: Block, ghost original: Block, ghost more: seq<Decision>) returns (b: Block)
      requires ScanOk(scan) && ci < |scan.comps|
      requires b0 == ZERO_BLOCK[0 := b0[0]] && At(b0, 0) == At(original, 0)
      requires var tbl := scan.comps[ci].acTbl;
        arith.Valid() && arith.pending == AcFrom(tbl, scan.cond.acK[tbl], Scaled(original, 0), 1, 63) + more
      modifies arith
      ensures arith.Source() == old(arith.Source())
      ensures arith.Valid() && arith.pending == more && b == original
    {
      hide Decoder.Valid, AcFrom, Pow2, BandDone, FitsCoef, At, Scaled;
      var tbl := scan.comps[ci].acTbl;
      ScaledFits(original, 0, 1, 63);
      DcOnly(b0);
      b := DecodeAcBand(tbl, scan.cond.acK[tbl], b0, 1, 63, 0, Scaled(original, 0), more);
      WholeBlock(b0, b, original);
    }

    /** Sequential mode: decodes every coefficient of the blocks of one MCU into the zeroed area data. */
    method DecodeMcu(data: seq<Block>, ghost s: DcState, ghost blocks: seq<Block>, ghost more: seq<Decision>)
        returns (out: seq<Block>)
      requires Matches(s) && |data| == |blocks| == |scan.membership|
      requires forall i :: 0 <= i < |data| ==> data[i] == ZERO_BLOCK
      requires !failed ==> Expects(McuDecisions(scan, Sequential, s, scan.membership, blocks), more)
      modifies this`lastDc, this`dcContext, this`failed, arith
      ensures arith.Source() == old(arith.Source())
      ensures !old(failed) ==> arith.Valid()
      ensures |out| == |data|
      ensures failed <==> old(failed) || !McuFits(scan, Sequential, s, scan.membership, blocks)
      ensures !failed ==> out == blocks && Expects([], more)
      ensures !failed ==> Matches(McuState(scan, Sequential, s, scan.membership, blocks))
    {
      hide Decoder.Valid, BlockDecisions, DcDecisions, AcFrom, AfterDc, At, DiffFits, McuState, McuDecisions, McuFits;
      out := [];
      if failed {
        return data;
      }
      ghost var cis, t := scan.membership, s;
      assert cis[0..] == cis && blocks[0..] == blocks;
      for blkn := 0 to |data|
        invariant arith.Source() == old(arith.Source())
        invariant DcStateOk(scan, t) && Matches(t) && out == blocks[..blkn]
        invariant Expects(McuDecisions(scan, Sequential, t, cis[blkn..], blocks[blkn..]), more)
        invariant McuState(scan, Sequential, t, cis[blkn..], blocks[blkn..]) == McuState(scan, Sequential, s, cis, blocks)
        invariant McuFits(scan, Sequential, t, cis[blkn..], blocks[blkn..]) == McuFits(scan, Sequential, s, cis, blocks)
      {
        var ci := scan.membership[blkn];
        ghost var b := blocks[blkn];
        McuStep(scan, Sequential, t, cis, blocks, blkn);
        McuFitsStep(scan, Sequential, t, cis, blocks, blkn);
        ghost var t' := AfterDc(scan, t, ci, b[0]);
        ghost var rest := McuDecisions(scan, Sequential, t', cis[blkn + 1..], blocks[blkn + 1..]) + more;
        var tbl := scan.comps[ci].acTbl;
        BlockParts(scan, Sequential, t, ci, b, rest);
        var ok := DecodeDc(ci, t, b[0], AcFrom(tbl, scan.cond.acK[tbl], Scaled(b, 0), 1, 63) + rest);
        if !ok {
          return out + data[blkn..];
        }
        AfterDcLast(scan, t, ci, b[0]);
        DcRestored(t', ci, b[0]);
        DcAt(b);
        DcAt(ZERO_BLOCK[0 := b[0]]);
        var decoded := DecodeBlockAc(ci, data[blkn][0 := ToCoef(lastDc[ci])], b, rest);
        out := out + [decoded];
        t := t';
      }
      McuEnd(scan, Sequential, t, cis, blocks);
    }

    lemma DcRestored(t: DcState, ci: nat, v: Coef)
      requires Matches(t) && ci < |scan.comps| && t.last[ci] == v
      ensures ToCoef(lastDc[ci]) == v
    {
      assert v == v / 0x10000 * 0x10000 + v % 0x10000;
      ToCoefExact(v, lastDc[ci], 0 - v / 0x10000);
    }

    /** First DC scan: stores the DC values of the blocks of one MCU, shifted left by al. */
    method DecodeMcuDcFirst(data: seq<Block>, al: nat, ghost s: DcState, ghost blocks: seq<Block>,
                            ghost levels: seq<seq<int>>, ghost more: seq<Decision>)
        returns (out: seq<Block>)
      requires al <= 13
      requires Matches(s) && |data| == |blocks| == |scan.membership|
      requires HoldAll(data, blocks, levels)
      requires !failed ==> Expects(McuDecisions(scan, DcFirst(al), s, scan.membership, blocks), more)
      modifies this`lastDc, this`dcContext, this`failed, arith
      ensures arith.Source() == old(arith.Source())
      ensures !old(failed) ==> arith.Valid()
      ensures DcOnlyStored(data, out)
      ensures failed <==> old(failed) || !McuFits(scan, DcFirst(al), s, scan.membership, blocks)
      ensures !failed ==> HoldAll(out, blocks, RaiseAll(levels, 0, 0, al)) && Expects([], more)
      ensures !failed ==> Matches(McuState(scan, DcFirst(al), s, scan.membership, blocks))
    {
      hide Decoder.Valid, BlockDecisions, DcDecisions, AfterDc, At, DiffFits, McuState, McuDecisions, McuFits, Claims,
        Lift, LevelsOk, HoldAll, RaiseAll, Pow2, DcOnlyStored;
      HoldAllAt(data, blocks, levels);
      HoldAllNone(blocks, levels, 0, 0, al);
      out := [];
      StoredSame(data);
      if failed {
        return data;
      }
      ghost var cis, t, mode := scan.membership, s, DcFirst(al);
      assert cis[0..] == cis && blocks[0..] == blocks;
      for blkn := 0 to |data|
        invariant arith.Source() == old(arith.Source())
        invariant DcStateOk(scan, t) && Matches(t)
        invariant HoldAll(out, blocks[..blkn], RaiseAll(levels[..blkn], 0, 0, al))
        invariant DcOnlyStored(data[..blkn], out)
        invariant Expects(McuDecisions(scan, mode, t, cis[blkn..], blocks[blkn..]), more)
        invariant McuState(scan, mode, t, cis[blkn..], blocks[blkn..]) == McuState(scan, mode, s, cis, blocks)
        invariant McuFits(scan, mode, t, cis[blkn..], blocks[blkn..]) == McuFits(scan, mode, s, cis, blocks)
      {
        var ci := scan.membership[blkn];
        ghost var b := blocks[blkn];
        ghost var m := DcValue(mode, b);
        McuStep(scan, mode, t, cis, blocks, blkn);
        McuFitsStep(scan, mode, t, cis, blocks, blkn);
        ghost var t' := AfterDc(scan, t, ci, m);
        ghost var rest := McuDecisions(scan, mode, t', cis[blkn + 1..], blocks[blkn + 1..]) + more;
        BlockParts(scan, mode, t, ci, b, rest);
        var ok := DecodeDc(ci, t, m, rest);
        if !ok {
          StoredPart(data, out, blkn);
          return out + data[blkn..];
        }
        AfterDcLast(scan, t, ci, m);
        DcStored(data[blkn], b, levels[blkn], al, lastDc[ci]);
        HoldAllSnoc(out, blocks, levels, blkn, data[blkn][0 := ToCoef(lastDc[ci] * Pow2(al))], 0, 0, al);
        StoredOne(data, out, blkn, ToCoef(lastDc[ci] * Pow2(al)));
        out := out + [data[blkn][0 := ToCoef(lastDc[ci] * Pow2(al))]];
        t := t';
      }
      HoldAllWhole(out, blocks, levels, 0, 0, al);
      McuEnd(scan, mode, t, cis, blocks);
      assert data[..|data|] == data;
    }

    lemma StoredSame(data: seq<Block>)
      ensures DcOnlyStored(data, data) && DcOnlyStored(data[..0], [])
    {
    }

    lemma StoredOne(data: seq<Block>, out: seq<Block>, n: nat, v: Coef)
      requires n < |data| && DcOnlyStored(data[..n], out)
      ensures DcOnlyStored(data[..n + 1], out + [data[n][0 := v]])
    {
      assert forall i :: 0 <= i < n ==> data[..n][i] == data[..n + 1][i];
    }

    lemma StoredPart(data: seq<Block>, out: seq<Block>, n: nat)
      requires n <= |data| && DcOnlyStored(data[..n], out)
      ensures DcOnlyStored(data, out + data[n..])
    {
      assert forall i :: 0 <= i < n ==> data[..n][i] == data[i];
    }

    /** DC refinement scan: sets the al-th bit of each DC value that has it. */
    method DecodeMcuDcRefine(data: seq<Block>, al: nat, ghost blocks: seq<Block>, ghost levels: seq<seq<int>>,
                             ghost more: seq<Decision>)
        returns (out: seq<Block>)
      requires al <= 13
      requires |data| == |blocks| && HoldAll(data, blocks, levels)
      requires forall i :: 0 <= i < |levels| && levels[i] != [] ==> levels[i][0] == al + 1 || levels[i][0] == LOST
      requires Expects(DcBits(blocks, al), more)
      modifies arith
      ensures arith.Source() == old(arith.Source())
      ensures HoldAll(out, blocks, RaiseAll(levels, 0, 0, al)) && Expects([], more)
    {
      hide Decoder.Valid, At, Claims, Lift, LevelsOk, HoldAll, RaiseAll, Pow2, DcBits, SetBit;
      HoldAllAt(data, blocks, levels);
      HoldAllNone(blocks, levels, 0, 0, al);
      out := [];
      assert blocks[0..] == blocks;
      for blkn := 0 to |data|
        invariant arith.Source() == old(arith.Source())
        invariant HoldAll(out, blocks[..blkn], RaiseAll(levels[..blkn], 0, 0, al))
        invariant Expects(DcBits(blocks[blkn..], al), more)
      {
        ghost var b := blocks[blkn];
        DcBitsStep(blocks, al, blkn, more);
        var bit := Take(Fixed, b[0] / Pow2(al) % 2, DcBits(blocks[blkn + 1..], al) + more);
        DcRefined(data[blkn], b, levels[blkn], al);
        var v: int := data[blkn][0];
        if bit != 0 {
          v := SetBit(v, Pow2(al));
        }
        HoldAllSnoc(out, blocks, levels, blkn, data[blkn][0 := v], 0, 0, al);
        out := out + [data[blkn][0 := v]];
      }
      HoldAllWhole(out, blocks, levels, 0, 0, al);
      DcBitsStep(blocks, al, |blocks|, more);
    }

    /** First AC scan of a band: one block per MCU. */
    method DecodeMcuAcFirst(data: Block, ss: nat, se: nat, al: nat, ghost block: Block, ghost levels: seq<int>,
                            ghost more: seq<Decision>)
        returns (out: Block)
      requires ScanOk(scan) && |scan.comps| >= 1
      requires 1 <= ss <= se < 64
      requires |levels| == 64 && Holds(data, block, levels)
      requires forall k :: ss <= k <= se ==> levels[k] < 0
      requires var tbl := scan.comps[0].acTbl;
        Expects(AcFrom(tbl, scan.cond.acK[tbl], Scaled(block, al), ss, se), more)
      modifies arith
      ensures arith.Source() == old(arith.Source())
      ensures Holds(out, block, Raise(levels, ss, se, al)) && Expects([], more)
    {
      hide Decoder.Valid, AcFrom, Pow2, BandDone, FitsCoef, At, Scaled, Holds, Raise;
      var tbl := scan.comps[0].acTbl;
      ScaledFits(block, al, ss, se);
      HoldsNothing(data, block, levels, ss, se);
      out := DecodeAcBand(tbl, scan.cond.acK[tbl], data, ss, se, al, Scaled(block, al), more);
      HoldsAfterFirst(data, out, block, levels, ss, se, al);
    }

    /** AC refinement scan of a band: one block per MCU. */
    method DecodeMcuAcRefine(data: Block, ss: nat, se: nat, al: nat, ghost block: Block, ghost levels: seq<int>,
                             ghost more: seq<Decision>)
        returns (out: Block)
      requires ScanOk(scan) && |scan.comps| >= 1
      requires 1 <= ss <= se < 64
      requires |levels| == 64 && Holds(data, block, levels)
      requires al + 1 != LOST && forall k :: ss <= k <= se ==> levels[k] == al + 1
      requires Expects(RefineFrom(scan.comps[0].acTbl, Scaled(block, al), ss, se), more)
      modifies arith
      ensures arith.Source() == old(arith.Source())
      ensures Holds(out, block, Raise(levels, ss, se, al)) && Expects([], more)
    {
      hide Decoder.Valid, RefineFrom, Pow2, BandDone, FitsCoef, At, Scaled, Holds, Raise, HoldsStageBefore;
      ScaledFits(block, al, ss, se);
      HoldsBefore(data, block, levels, ss, se, al);
      out := DecodeAcRefineBand(scan.comps[0].acTbl, data, ss, se, al, Scaled(block, al), more);
      HoldsAfterFirst(data, out, block, levels, ss, se, al);
    }
  }
}
