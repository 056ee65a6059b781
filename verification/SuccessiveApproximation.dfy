/**
  Successive approximation: what a block holds after some scans have sent some bits of its coefficients, and how
  scans that send a band, or one more bit of it, bring it forward.
*/
module SuccessiveApproximation {
  import opened Powers
  import opened Zigzag
  import opened Coefficients

  predicate AllZero(z: Zz, k: nat, se: nat)
    requires se < 64
  {
    forall j :: k <= j <= se ==> z[j] == 0
  }

  /** The coefficients of a block after the point transform by al, with their signs. */
  function Scaled(b: Block, al: nat): Zz {
    seq(64, k requires 0 <= k < 64 => Scale(At(b, k), al))
  }

  /** Shifting by one more bit is halving: the stage before coded exactly the magnitudes of at least two. */
  lemma StageBefore(v: int, al: nat)
    ensures Abs(Scale(v, al + 1)) == Abs(Scale(v, al)) / 2
    ensures Scale(v, al) != 0 ==> (Scale(v, al) < 0 <==> v < 0)
    ensures Abs(Scale(v, al)) == Abs(v) / Pow2(al)
  {
    HalveAgain(Abs(v), Pow2(al));
  }

  // ---- blocks under reconstruction ----

  /** In b, the band from ss up to but not including k holds z, scaled up by p; the rest is as in b0. */
  predicate BandDone(b0: Block, b: Block, z: Zz, p: int, ss: nat, k: nat) {
    forall j :: 0 <= j < 64 ==> At(b, j) == if ss <= j < k then z[j] * p else At(b0, j)
  }

  lemma BandPut(b0: Block, b: Block, z: Zz, p: int, ss: nat, k: nat, v: Coef)
    requires ss <= k < 64 && BandDone(b0, b, z, p, ss, k) && v == z[k] * p
    ensures BandDone(b0, Put(b, k, v), z, p, ss, k + 1)
  {
    hide At, Put;
    forall j | 0 <= j < 64
      ensures At(Put(b, k, v), j) == if ss <= j < k + 1 then z[j] * p else At(b0, j)
    {
      PutAt(b, k, v, j);
      assert At(b, j) == if ss <= j < k then z[j] * p else At(b0, j);
    }
  }

  lemma BandStart(b: Block, z: Zz, p: int, ss: nat)
    ensures BandDone(b, b, z, p, ss, ss)
  {
  }

  lemma BandRest(b0: Block, b: Block, z: Zz, p: int, ss: nat, k: nat, se: nat)
    requires ss <= k <= se < 64 && BandDone(b0, b, z, p, ss, k)
    requires AllZero(z, k, se) && forall j :: ss <= j <= se ==> At(b0, j) == 0
    ensures BandDone(b0, b, z, p, ss, se + 1)
  {
    hide At;
    BandZeros(b0, b, z, p, ss, k, se + 1);
  }

  /** A magnitude without its last bit. */
  function Half(z: int): int {
    Scale(z, 1)
  }

  lemma HalfFacts(z: int, p: nat)
    requires p >= 1
    ensures Half(z) * (2 * p) == 0 <==> Abs(z) < 2
    ensures Abs(z) >= 2 ==> (Half(z) * (2 * p) < 0 <==> z < 0)
    ensures Half(z) * (2 * p) + (if Abs(z) % 2 == 0 then 0 else if z < 0 then 0 - p else p) == z * p
  {
    assert Pow2(1) == 2;
    hide Pow2;
    var h, r := Abs(z) / 2, Abs(z) % 2;
    HalfTimes(h, r, p);
    if z < 0 {
      assert Half(z) == -h && z == -(2 * h + r);
      HalfNegative(h, r, p);
    }
  }

  lemma HalfTimes(h: nat, r: nat, p: nat)
    requires p >= 1 && r < 2
    ensures h * (2 * p) + r * p == (2 * h + r) * p
    ensures h == 0 ==> h * (2 * p) == 0
    ensures h >= 1 ==> h * (2 * p) >= 2
  {
    if h >= 1 {
      MulMonotone(1, h, 2 * p);
    }
  }

  lemma HalfNegative(h: int, r: int, p: int)
    ensures -h * (2 * p) == -(h * (2 * p)) && -(2 * h + r) * p == -((2 * h + r) * p)
  {
  }

  /** In the band, b0 holds every coefficient of z without its last bit, in units of p. */
  predicate HoldsStageBefore(b0: Block, z: Zz, p: nat, ss: nat, se: nat)
    requires se < 64
  {
    forall j :: ss <= j <= se ==> At(b0, j) == Half(z[j]) * (2 * p)
  }

  /** In units of p, every coefficient of the band fits its type. */
  predicate FitsCoef(z: Zz, p: nat, ss: nat, se: nat)
    requires se < 64
  {
    forall j :: ss <= j <= se ==> -0x8000 <= z[j] * p < 0x8000
  }

  lemma MagnitudeFits(z: Zz, p: nat, ss: nat, se: nat, k: nat)
    requires p >= 1 && ss <= k <= se < 64 && FitsCoef(z, p, ss, se)
    ensures Abs(z[k]) <= 0x8000 && -0x8000 <= z[k] * p < 0x8000
  {
    if z[k] > 0x8000 {
      MulMonotone(0x8000, z[k], p);
      assert false;
    } else if z[k] < -0x8000 {
      MulMonotone(z[k], -0x8001, p);
      assert false;
    }
  }

  lemma BandAt(b0: Block, z: Zz, p: nat, ss: nat, se: nat, k: nat)
    requires ss <= k <= se < 64 && HoldsStageBefore(b0, z, p, ss, se) && FitsCoef(z, p, ss, se)
    ensures At(b0, k) == Half(z[k]) * (2 * p) && -0x8000 <= z[k] * p < 0x8000
  {
    hide At, Half;
  }

  lemma BandLookup(b0: Block, b: Block, z: Zz, p: int, ss: nat, k: nat)
    requires ss <= k < 64 && BandDone(b0, b, z, p, ss, k)
    ensures At(b, k) == At(b0, k)
  {
    hide At;
  }

  lemma BandStill(b0: Block, b: Block, z: Zz, p: nat, ss: nat, k: nat, se: nat)
    requires p >= 1 && 1 <= ss <= k <= se < 64 && BandDone(b0, b, z, p, ss, k)
    requires AllZero(z, k, se) && HoldsStageBefore(b0, z, p, ss, se)
    ensures BandDone(b0, b, z, p, ss, se + 1)
  {
    hide At, Half;
    forall j | k <= j <= se
      ensures At(b0, j) == 0
    {
      HalfFacts(z[j], p);
    }
    BandZeros(b0, b, z, p, ss, k, se + 1);
  }

  lemma BandZeros(b0: Block, b: Block, z: Zz, p: int, ss: nat, k: nat, k': nat)
    requires ss <= k <= k' <= 64 && BandDone(b0, b, z, p, ss, k)
    requires forall j :: k <= j < k' ==> z[j] == 0 && At(b0, j) == 0
    ensures BandDone(b0, b, z, p, ss, k')
  {
    hide At;
  }

  // ---- successive approximation ----

  /** What is known of a coefficient sent down to bit al; nothing, when it has not been sent. */
  function Known(k: nat, v: int, al: int): int {
    if al < 0 then 0 else if k == 0 then v / Pow2(al) * Pow2(al) else Scale(v, al) * Pow2(al)
  }

  /** The level of a DC value that a decoder could not follow: nothing is known of it, and never will be. */
  const LOST: int := 99

  /** A received block holds what is known of the original, coefficient by coefficient. */
  predicate Holds(received: Block, original: Block, levels: seq<int>)
    requires |levels| == 64
  {
    forall k :: 0 <= k < 64 && levels[k] != LOST ==> At(received, k) == Known(k, At(original, k), levels[k])
  }

  /** The levels after a scan of coefficients ss..se down to bit al. */
  function Raise(levels: seq<int>, ss: nat, se: nat, al: int): (r: seq<int>)
    requires |levels| == 64
    ensures |r| == 64
  {
    seq(64, k requires 0 <= k < 64 => if ss <= k <= se && levels[k] != LOST then al else levels[k])
  }

  lemma ScaleFits(v: Coef, al: nat)
    ensures -0x8000 <= Scale(v, al) * Pow2(al) < 0x8000
  {
    hide Pow2;
    var p, q := Pow2(al), Abs(v) / Pow2(al);
    FloorProduct(Abs(v), p);
    if v < 0 {
      assert Scale(v, al) == 0 - q;
      NegateProduct(q, p);
    }
  }

  lemma FloorProduct(x: nat, p: nat)
    requires p >= 1
    ensures 0 <= x / p * p <= x
  {
  }

  lemma NegateProduct(q: int, p: int)
    ensures (0 - q) * p == -(q * p)
  {
  }

  /** Rounding down to a multiple of 2^al stays in range: the lowest coefficient is such a multiple. */
  lemma FloorFits(v: Coef, al: nat)
    requires al <= 15
    ensures -0x8000 <= v / Pow2(al) * Pow2(al) <= v
  {
    hide Pow2;
    Pow2Sum(15 - al, al);
    Pow2Values();
    FloorDivision(v, Pow2(al));
    FloorBound(v / Pow2(al), Pow2(al), Pow2(15 - al), v);
  }

  lemma FloorDivision(v: int, p: nat)
    requires p >= 1
    ensures v / p * p <= v < v / p * p + p
  {
  }

  lemma FloorBound(q: int, p: nat, t: nat, v: int)
    requires p >= 1 && q * p <= v < q * p + p && -(t * p) <= v
    ensures -(t * p) <= q * p
  {
    NegateProduct(t, p);
    assert (q + 1) * p == q * p + p;
    if q < 0 - t {
      MulMonotone(q + 1, 0 - t, p);
    } else {
      MulMonotone(0 - t, q, p);
    }
  }

  // ---- a decoded band against the original block ----

  lemma ZeroBlockAt(k: nat)
    requires k < 64
    ensures At(ZERO_BLOCK, k) == 0
  {
    NaturalOrderIsZigzag(k);
  }

  /** The unscaled coefficients of a whole block, put back one by one, are the block. */
  lemma WholeBlock(b0: Block, b: Block, original: Block)
    requires At(b0, 0) == At(original, 0)
    requires BandDone(b0, b, Scaled(original, 0), Pow2(0), 1, 64)
    ensures b == original
  {
    hide At;
    forall k | 0 <= k < 64
      ensures At(b, k) == At(original, k)
    {
      UnscaledAt(original, k);
    }
    SameBlock(b, original);
  }

  lemma UnscaledAt(b: Block, k: nat)
    requires k < 64
    ensures Scaled(b, 0)[k] == At(b, k) && Pow2(0) == 1
  {
    hide At;
  }

  lemma ScaledFits(b: Block, al: nat, ss: nat, se: nat)
    requires se < 64
    ensures FitsCoef(Scaled(b, al), Pow2(al), ss, se)
  {
    hide At, Scale, Pow2;
    forall j | ss <= j <= se
      ensures -0x8000 <= Scaled(b, al)[j] * Pow2(al) < 0x8000
    {
      ScaleFits(At(b, j), al);
    }
  }

  /** A first scan of a band raises its levels from nothing to al. */
  lemma HoldsAfterFirst(b0: Block, b: Block, original: Block, levels: seq<int>, ss: nat, se: nat, al: nat)
    requires 1 <= ss <= se < 64 && |levels| == 64 && Holds(b0, original, levels)
    requires BandDone(b0, b, Scaled(original, al), Pow2(al), ss, se + 1)
    ensures Holds(b, original, Raise(levels, ss, se, al))
  {
    hide At, Scale, Pow2;
  }

  lemma HoldsNothing(b0: Block, original: Block, levels: seq<int>, ss: nat, se: nat)
    requires 1 <= ss <= se < 64 && |levels| == 64 && Holds(b0, original, levels)
    requires forall k :: ss <= k <= se ==> levels[k] < 0
    ensures forall k :: ss <= k <= se ==> At(b0, k) == 0
  {
    hide At, Scale, Pow2;
  }

  /** What a refinement scan starts from: the band known down to bit al + 1. */
  lemma HoldsBefore(b0: Block, original: Block, levels: seq<int>, ss: nat, se: nat, al: nat)
    requires 1 <= ss <= se < 64 && |levels| == 64 && Holds(b0, original, levels)
    requires al + 1 != LOST && forall k :: ss <= k <= se ==> levels[k] == al + 1
    ensures HoldsStageBefore(b0, Scaled(original, al), Pow2(al), ss, se)
  {
    hide At, Scale;
    forall j | ss <= j <= se
      ensures At(b0, j) == Half(Scaled(original, al)[j]) * (2 * Pow2(al))
    {
      HalfScale(At(original, j), al);
    }
  }

  lemma HalfScale(v: int, al: nat)
    ensures Half(Scale(v, al)) == Scale(v, al + 1)
  {
    assert Pow2(1) == 2;
    StageBefore(v, al);
    HalveAgain(Abs(v), Pow2(al));
  }

  lemma DcAt(b: Block)
    ensures At(b, 0) == b[0]
  {
    assert NaturalOrder(0) == 0;
  }

  lemma DcOnly(b0: Block)
    requires b0 == ZERO_BLOCK[0 := b0[0]]
    ensures forall j :: 1 <= j < 64 ==> At(b0, j) == 0
  {
    assert ZigzagIndex(0) == 0;
    forall j | 1 <= j < 64
      ensures At(b0, j) == 0
    {
      hide NaturalOrder, ZigzagIndex;
      NaturalOrderIsZigzag(j);
    }
  }

  /** A new DC value raises the level of that coefficient only. */
  lemma HoldsAfterDc(b: Block, original: Block, levels: seq<int>, al: nat, v: Coef)
    requires |levels| == 64
    requires forall k :: 1 <= k < 64 && levels[k] != LOST ==> At(b, k) == Known(k, At(original, k), levels[k])
    requires levels[0] != LOST ==> v == original[0] / Pow2(al) * Pow2(al)
    ensures Holds(b[0 := v], original, Raise(levels, 0, 0, al))
  {
    DcAt(original);
    DcAt(b[0 := v]);
    hide Pow2, Scale;
    forall k | 0 <= k < 64 && levels[k] != LOST
      ensures At(b[0 := v], k) == Known(k, At(original, k), Raise(levels, 0, 0, al)[k])
    {
      if k > 0 {
        OnlyDcChanges(b, v, k);
      }
    }
  }

  lemma OnlyDcChanges(b: Block, v: Coef, k: nat)
    requires 1 <= k < 64
    ensures At(b[0 := v], k) == At(b, k)
  {
    assert ZigzagIndex(0) == 0;
    hide NaturalOrder, ZigzagIndex;
    NaturalOrderIsZigzag(k);
  }

  lemma HoldsAt(b: Block, original: Block, levels: seq<int>)
    requires |levels| == 64 && Holds(b, original, levels)
    ensures forall k :: 1 <= k < 64 && levels[k] != LOST ==> At(b, k) == Known(k, At(original, k), levels[k])
    ensures levels[0] != LOST ==> b[0] == Known(0, original[0], levels[0])
  {
    DcAt(b);
    DcAt(original);
    hide At, Known;
    assert levels[0] != LOST ==> At(b, 0) == Known(0, At(original, 0), levels[0]);
  }

  /** A prediction kept modulo 2^16 still gives the exact coefficient after the left shift. */
  lemma ShiftedDc(v: Coef, al: nat, last: nat)
    requires al <= 15 && last == v / Pow2(al) % 0x10000
    ensures ToCoef(last * Pow2(al)) == v / Pow2(al) * Pow2(al)
    ensures -0x8000 <= v / Pow2(al) * Pow2(al) < 0x8000
  {
    hide Pow2, ToCoef;
    var p, m := Pow2(al), v / Pow2(al);
    FloorFits(v, al);
    assert m == m / 0x10000 * 0x10000 + last;
    ShiftedProduct(m, m / 0x10000, last, p);
    ToCoefExact(m * p, last * p, 0 - m / 0x10000 * p);
  }

  lemma ShiftedProduct(m: int, q: int, last: int, p: int)
    requires m == q * 0x10000 + last
    ensures last * p == m * p + (0 - q * p) * 0x10000
  {
    assert q * 0x10000 * p == q * p * 0x10000;
  }

  /** Setting bit n: the bitwise or with a power of two p. */
  function SetBit(x: int, p: nat): int
    requires p >= 1
  {
    if x / p % 2 == 1 then x else x + p
  }

  /** The bit of weight 2^al completes a DC value known down to the bit above. */
  lemma RefinedDc(v: Coef, al: nat)
    requires al <= 14
    ensures var x := v / Pow2(al + 1) * Pow2(al + 1);
      (if v / Pow2(al) % 2 == 1 then SetBit(x, Pow2(al)) else x) == v / Pow2(al) * Pow2(al)
    ensures -0x8000 <= v / Pow2(al) * Pow2(al) < 0x8000
  {
    hide Pow2;
    NextBit(v, al);
    ClearedBit(v, al);
    FloorFits(v, al);
  }

  /** Levels of a block that matters, or none at all for a block that only fills up an MCU. */
  predicate LevelsOk(levels: seq<int>) {
    levels == [] || |levels| == 64
  }

  /** Nothing is claimed of a block without levels. */
  predicate Claims(received: Block, original: Block, levels: seq<int>) {
    LevelsOk(levels) && (levels != [] ==> Holds(received, original, levels))
  }

  function Lift(levels: seq<int>, ss: nat, se: nat, al: int): (r: seq<int>)
    requires LevelsOk(levels)
    ensures LevelsOk(r)
  {
    if levels == [] then [] else Raise(levels, ss, se, al)
  }

  /** The same, block by block. */
  predicate HoldAll(received: seq<Block>, originals: seq<Block>, levels: seq<seq<int>>) {
    |received| == |originals| == |levels|
    && forall i :: 0 <= i < |received| ==> Claims(received[i], originals[i], levels[i])
  }

  function RaiseAll(levels: seq<seq<int>>, ss: nat, se: nat, al: int): (r: seq<seq<int>>)
    requires forall i :: 0 <= i < |levels| ==> LevelsOk(levels[i])
    ensures |r| == |levels| && forall i :: 0 <= i < |levels| ==> r[i] == Lift(levels[i], ss, se, al)
  {
    seq(|levels|, i requires 0 <= i < |levels| => Lift(levels[i], ss, se, al))
  }

  lemma HoldAllNone(originals: seq<Block>, levels: seq<seq<int>>, ss: nat, se: nat, al: int)
    ensures HoldAll([], originals[..0], RaiseAll(levels[..0], ss, se, al))
  {
  }

  lemma HoldAllSnoc(received: seq<Block>, originals: seq<Block>, levels: seq<seq<int>>, n: nat, b: Block,
                    ss: nat, se: nat, al: int)
    requires n < |originals| == |levels| && forall i :: 0 <= i < |levels| ==> LevelsOk(levels[i])
    requires HoldAll(received, originals[..n], RaiseAll(levels[..n], ss, se, al))
    requires Claims(b, originals[n], Lift(levels[n], ss, se, al))
    ensures HoldAll(received + [b], originals[..n + 1], RaiseAll(levels[..n + 1], ss, se, al))
  {
    hide Claims, Lift, LevelsOk;
  }

  lemma HoldAllWhole(received: seq<Block>, originals: seq<Block>, levels: seq<seq<int>>, ss: nat, se: nat, al: int)
    requires |originals| == |levels| && forall i :: 0 <= i < |levels| ==> LevelsOk(levels[i])
    requires HoldAll(received, originals[..|originals|], RaiseAll(levels[..|levels|], ss, se, al))
    ensures HoldAll(received, originals, RaiseAll(levels, ss, se, al))
  {
    hide Claims, Lift, LevelsOk;
    assert originals[..|originals|] == originals && levels[..|levels|] == levels;
  }

  lemma HoldAllAt(received: seq<Block>, originals: seq<Block>, levels: seq<seq<int>>)
    requires HoldAll(received, originals, levels)
    ensures |received| == |originals| == |levels|
    ensures forall i :: 0 <= i < |levels| ==> LevelsOk(levels[i]) && Claims(received[i], originals[i], levels[i])
  {
    hide LevelsOk, Holds;
  }

  /** The levels when the DC value has got lost. */
  function Lose(levels: seq<int>): (r: seq<int>)
    requires LevelsOk(levels)
    ensures LevelsOk(r)
  {
    if levels == [] then [] else levels[0 := LOST]
  }

  function LoseAll(levels: seq<seq<int>>): (r: seq<seq<int>>)
    requires forall i :: 0 <= i < |levels| ==> LevelsOk(levels[i])
    ensures |r| == |levels| && forall i :: 0 <= i < |levels| ==> r[i] == Lose(levels[i])
  {
    seq(|levels|, i requires 0 <= i < |levels| => Lose(levels[i]))
  }

  /** Blocks that differ at most in their DC values. */
  predicate DcOnlyStored(data: seq<Block>, out: seq<Block>) {
    |out| == |data| && forall i, n :: 0 <= i < |data| && 1 <= n < 64 ==> out[i][n] == data[i][n]
  }

  /** Then the claims hold of everything but the DC values. */
  lemma LostDc(data: seq<Block>, out: seq<Block>, originals: seq<Block>, levels: seq<seq<int>>)
    requires HoldAll(data, originals, levels) && DcOnlyStored(data, out)
    ensures HoldAll(out, originals, LoseAll(levels))
  {
    hide At, Known;
    forall i | 0 <= i < |out|
      ensures Claims(out[i], originals[i], Lose(levels[i]))
    {
      assert Claims(data[i], originals[i], levels[i]);
      var v := out[i][0];
      assert out[i] == data[i][0 := v];
      if levels[i] != [] {
        forall k | 1 <= k < 64
          ensures At(out[i], k) == At(data[i], k)
        {
          OnlyDcChanges(data[i], v, k);
        }
      }
    }
  }

  lemma DcStored(data: Block, original: Block, levels: seq<int>, al: nat, last: nat)
    requires al <= 13 && Claims(data, original, levels)
    requires last == original[0] / Pow2(al) % 0x10000
    ensures Claims(data[0 := ToCoef(last * Pow2(al))], original, Lift(levels, 0, 0, al))
  {
    hide Holds, Raise, At, Known, Pow2;
    if levels != [] {
      HoldsAt(data, original, levels);
      ShiftedDc(original[0], al, last);
      HoldsAfterDc(data, original, levels, al, ToCoef(last * Pow2(al)));
    }
  }

  lemma DcRefined(data: Block, original: Block, levels: seq<int>, al: nat)
    requires al <= 13 && Claims(data, original, levels) && (levels != [] ==> levels[0] == al + 1 || levels[0] == LOST)
    ensures var v := if original[0] / Pow2(al) % 2 == 0 then data[0] else SetBit(data[0], Pow2(al));
      -0x8000 <= v < 0x8000 && Claims(data[0 := v], original, Lift(levels, 0, 0, al))
  {
    hide Holds, Raise, At, Pow2, SetBit;
    SetBitFits(data[0], al);
    if levels != [] {
      HoldsAt(data, original, levels);
      RefinedDc(original[0], al);
      HoldsAfterDc(data, original, levels, al,
                   if original[0] / Pow2(al) % 2 == 0 then data[0] else SetBit(data[0], Pow2(al)));
    }
  }

  /** A coefficient without bit al has room for it below the sign bit. */
  lemma SetBitFits(x: Coef, al: nat)
    requires al <= 14
    ensures -0x8000 <= SetBit(x, Pow2(al)) < 0x8000
  {
    hide Pow2, SetBit;
    Pow2Sum(14 - al, al);
    assert (14 - al) + al == 14;
    Pow2Values();
    SetBitBelow(x, Pow2(al), Pow2(14 - al));
  }

  lemma SetBitBelow(x: Coef, p: nat, half: nat)
    requires p >= 1 && half * p == 0x4000
    ensures -0x8000 <= SetBit(x, p) < 0x8000
  {
    hide SetBit;
    FloorDivision(x, p);
    EvenMultiple(x, x / p, p, half);
    SetBitSum(x, p);
  }

  lemma SetBitSum(x: int, p: nat)
    requires p >= 1
    ensures SetBit(x, p) == x || (x / p % 2 == 0 && SetBit(x, p) == x + p)
  {
  }

  lemma EvenMultiple(x: int, q: int, p: nat, half: nat)
    requires q * p <= x < q * p + p && half * p == 0x4000 && x < 0x8000
    ensures q % 2 == 0 ==> x + p < 0x8000
  {
    assert 2 * half * p == 0x8000;
    assert (q + 2) * p == q * p + 2 * p;
    if q % 2 == 0 {
      if q >= 2 * half {
        MulMonotone(2 * half, q, p);
      } else {
        MulMonotone(q + 2, 2 * half, p);
      }
    }
  }
}
