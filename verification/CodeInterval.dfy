/**
  The meaning of a sequence of binary decisions in the arithmetic coder of Rec. ITU-T T.81 sections D.1 and D.2,
  on exact integers: an interval [low, low + a) in units of 2^-(16+t), narrowed once per decision.
*/
module CodeInterval {
  import opened Powers
  import opened ByteStream
  import opened ProbabilityTable

  /** The reals [low, low + a) * 2^-(16 + t). */
  datatype Interval = Interval(low: nat, a: nat, t: nat)

  const START := Interval(0, 0x10000, 0)

  predicate Normal(iv: Interval) {
    0x8000 <= iv.a <= 0x10000
  }

  /** The more probable symbol gets the larger part of the interval; the part of size Qe is the upper one. */
  predicate Upper(a: nat, sv: StatByte, bit: Bit)
    requires a >= 0x8000
  {
    (bit == Mps(sv)) == (a - Qe(sv) < Qe(sv))
  }

  function Part(iv: Interval, sv: StatByte, bit: Bit): (r: Interval)
    requires Normal(iv)
    ensures 1 <= r.a < iv.a
  {
    hide Qe;
    var rest := iv.a - Qe(sv);
    if Upper(iv.a, sv, bit) then Interval(iv.low + rest, Qe(sv), iv.t) else Interval(iv.low, rest, iv.t)
  }

  /** Doubles the scale until the interval has its normal size again. */
  function Renormalize(iv: Interval): (r: Interval)
    requires 1 <= iv.a <= 0x10000
    ensures Normal(r) && r.t >= iv.t
    decreases 0x10000 - iv.a
  {
    if iv.a >= 0x8000 then iv else Renormalize(Interval(2 * iv.low, 2 * iv.a, iv.t + 1))
  }

  function Narrow(iv: Interval, sv: StatByte, bit: Bit): (r: Interval)
    requires Normal(iv)
    ensures Normal(r)
  {
    Renormalize(Part(iv, sv, bit))
  }

  // ---- code values inside an interval ----

  /** The first n data bytes, read as a number, lie in iv (at the resolution of n bytes). */
  predicate InsideAt(data: seq<byte>, iv: Interval, n: nat)
    requires 8 * n >= 16 + iv.t
  {
    var unit := Pow2(8 * n - 16 - iv.t);
    iv.low * unit <= Prefix(data, n) < (iv.low + iv.a) * unit
  }

  /** How many bytes a decoder holds after t shifts. */
  function BytesFor(t: nat): (n: nat)
    ensures 16 + t <= 8 * n < 24 + t
  {
    2 + (t + 7) / 8
  }

  /** The code value of a whole segment lies in iv. */
  predicate Inside(data: seq<byte>, iv: Interval) {
    InsideAt(data, iv, BytesFor(iv.t))
  }

  lemma InsideStep(data: seq<byte>, iv: Interval, n: nat)
    requires 8 * n >= 16 + iv.t
    ensures InsideAt(data, iv, n) <==> InsideAt(data, iv, n + 1)
  {
    var unit := Pow2(8 * n - 16 - iv.t);
    Pow2Sum(8 * n - 16 - iv.t, 8);
    assert Pow2(8 * (n + 1) - 16 - iv.t) == unit * 256 by {
      assert 8 * (n + 1) - 16 - iv.t == 8 * n - 16 - iv.t + 8;
    }
    var lo, hi := iv.low * unit, (iv.low + iv.a) * unit;
    assert iv.low * (unit * 256) == lo * 256;
    assert (iv.low + iv.a) * (unit * 256) == hi * 256;
  }

  /** Reading more bytes of a segment does not change whether its value lies in the interval. */
  lemma {:induction false} InsideAnywhere(data: seq<byte>, iv: Interval, m: nat, n: nat)
    requires m <= n && 8 * m >= 16 + iv.t
    ensures InsideAt(data, iv, m) <==> InsideAt(data, iv, n)
  {
    if m == n {
    } else {
      InsideAnywhere(data, iv, m, n - 1);
      InsideStep(data, iv, n - 1);
    }
  }

  /** Doubling the scale names the same reals. */
  lemma InsideDouble(data: seq<byte>, iv: Interval)
    ensures Inside(data, iv) <==> Inside(data, Interval(2 * iv.low, 2 * iv.a, iv.t + 1))
  {
    var dbl := Interval(2 * iv.low, 2 * iv.a, iv.t + 1);
    var n := BytesFor(dbl.t);
    InsideAnywhere(data, iv, BytesFor(iv.t), n);
    var unit := Pow2(8 * n - 16 - dbl.t);
    assert Pow2(8 * n - 16 - iv.t) == 2 * unit;
    hide Pow2, Prefix;
    Regroup(iv.low, unit);
    Regroup(iv.low + iv.a, unit);
  }

  lemma {:induction false} InsideRenormalize(data: seq<byte>, iv: Interval)
    requires 1 <= iv.a <= 0x10000
    ensures Inside(data, iv) <==> Inside(data, Renormalize(iv))
    decreases 0x10000 - iv.a
  {
    if iv.a >= 0x8000 {
    } else {
      InsideDouble(data, iv);
      InsideRenormalize(data, Interval(2 * iv.low, 2 * iv.a, iv.t + 1));
    }
  }

  lemma InsidePart(data: seq<byte>, iv: Interval, sv: StatByte, bit: Bit)
    requires Normal(iv)
    requires Inside(data, Part(iv, sv, bit))
    ensures Inside(data, iv)
  {
    hide Qe, Pow2, Prefix;
    var p := Part(iv, sv, bit);
    var unit := Pow2(8 * BytesFor(iv.t) - 16 - iv.t);
    MulMonotone(iv.low, p.low, unit);
    MulMonotone(p.low + p.a, iv.low + iv.a, unit);
  }

  /** A value in the interval after a decision was in the interval before it: intervals are nested. */
  lemma Nested(data: seq<byte>, iv: Interval, sv: StatByte, bit: Bit)
    requires Normal(iv)
    requires Inside(data, Narrow(iv, sv, bit))
    ensures Inside(data, iv) && Inside(data, Part(iv, sv, bit))
  {
    InsideRenormalize(data, Part(iv, sv, bit));
    InsidePart(data, iv, sv, bit);
  }

  /** The two parts of an interval are disjoint, so the value alone tells which decision was made. */
  lemma PartsDisjoint(data: seq<byte>, iv: Interval, sv: StatByte, b0: Bit, b1: Bit)
    requires Normal(iv)
    requires Inside(data, Part(iv, sv, b0)) && Inside(data, Part(iv, sv, b1))
    ensures b0 == b1
  {
    hide Qe, Pow2, Prefix;
  }

  // ---- runs of decisions over a set of statistics bins ----

  /** The place of a statistics byte: in the DC or AC area of a conditioning table, or the fixed bin. */
  datatype Bin = Dc(tbl: nat, k: nat) | Ac(tbl: nat, k: nat) | Fixed

  datatype Decision = Decision(bin: Bin, bit: Bit)

  type Stats = map<Bin, StatByte>

  /** Statistics areas start zeroed; the fixed bin starts, and stays, in its own state. */
  function Stat(stats: Stats, bin: Bin): StatByte {
    if bin in stats then stats[bin] else if bin.Fixed? then FIXED_STATE else 0
  }

  /** The exact state of a coder: its interval and its bins. */
  datatype Coded = Coded(iv: Interval, stats: Stats)

  const FRESH := Coded(START, map[])

  /** One decision: the estimate adapts exactly when the interval has to be renormalized. */
  function Step(s: Coded, d: Decision): (r: Coded)
    requires Normal(s.iv)
    ensures Normal(r.iv)
  {
    var sv := Stat(s.stats, d.bin);
    if Part(s.iv, sv, d.bit).a >= 0x8000 then s.(iv := Part(s.iv, sv, d.bit))
    else
      Coded(Narrow(s.iv, sv, d.bit), s.stats[d.bin := if d.bit == Mps(sv) then AfterMps(sv) else AfterLps(sv)])
  }

  function Run(s: Coded, ds: seq<Decision>): (r: Coded)
    requires Normal(s.iv)
    ensures Normal(r.iv)
    decreases |ds|
  {
    if ds == [] then s else Run(Step(s, ds[0]), ds[1..])
  }

  lemma {:induction false} RunAppend(s: Coded, xs: seq<Decision>, ys: seq<Decision>)
    requires Normal(s.iv)
    ensures Run(s, xs + ys) == Run(Run(s, xs), ys)
    decreases |xs|
  {
    if xs == [] {
      assert xs + ys == ys;
    } else {
      assert (xs + ys)[1..] == xs[1..] + ys;
      RunAppend(Step(s, xs[0]), xs[1..], ys);
    }
  }

  lemma RunSnoc(s: Coded, xs: seq<Decision>, d: Decision)
    requires Normal(s.iv)
    ensures Run(s, xs + [d]) == Step(Run(s, xs), d)
  {
    RunAppend(s, xs, [d]);
    assert [d][1..] == [];
  }

  /** The final code value lies in the interval of every earlier moment. */
  lemma {:induction false} NestedRun(data: seq<byte>, s: Coded, ds: seq<Decision>)
    requires Normal(s.iv)
    requires Inside(data, Run(s, ds).iv)
    ensures Inside(data, s.iv)
    decreases |ds|
  {
    if ds == [] {
    } else {
      NestedRun(data, Step(s, ds[0]), ds[1..]);
      Nested(data, s.iv, Stat(s.stats, ds[0].bin), ds[0].bit);
    }
  }

  /** One code value cannot stand for two different sequences of decisions on the same bins. */
  lemma {:induction false} ValueDeterminesDecisions(data: seq<byte>, s: Coded, xs: seq<Decision>, ys: seq<Decision>)
    requires Normal(s.iv)
    requires |xs| == |ys| && forall i :: 0 <= i < |xs| ==> xs[i].bin == ys[i].bin
    requires Inside(data, Run(s, xs).iv) && Inside(data, Run(s, ys).iv)
    ensures xs == ys
    decreases |xs|
  {
    if xs == [] {
    } else {
      hide Inside, Narrow, Part, Upper;
      var sv, b0, b1 := Stat(s.stats, xs[0].bin), xs[0].bit, ys[0].bit;
      NestedRun(data, Step(s, xs[0]), xs[1..]);
      NestedRun(data, Step(s, ys[0]), ys[1..]);
      StepInside(data, s, xs[0]);
      StepInside(data, s, ys[0]);
      PartsDisjoint(data, s.iv, sv, b0, b1);
      ValueDeterminesDecisions(data, Step(s, xs[0]), xs[1..], ys[1..]);
      assert xs == [xs[0]] + xs[1..] && ys == [ys[0]] + ys[1..];
    }
  }

  lemma StepInside(data: seq<byte>, s: Coded, d: Decision)
    requires Normal(s.iv)
    requires Inside(data, Step(s, d).iv)
    ensures Inside(data, Part(s.iv, Stat(s.stats, d.bin), d.bit))
  {
    hide Inside, Part;
    InsideRenormalize(data, Part(s.iv, Stat(s.stats, d.bin), d.bit));
  }
}
