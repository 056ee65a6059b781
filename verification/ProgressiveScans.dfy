/**
  Whole progressive AC scans with Huffman codes: the statistics pass makes a table, the output pass uses it, and the
  decoder brings every block to the level of the scan.
*/
module ProgressiveScans {
  import opened Powers
  import opened Coefficients
  import opened SuccessiveApproximation
  import opened HuffmanForest
  import opened HuffmanCode
  import opened HuffmanTables
  import opened OptimalTable
  import opened HuffmanTokens
  import opened HuffmanOptimized
  import opened EobRuns
  import opened RunsAhead
  import opened ProgressiveEncoder

  // ---- which symbols and bits a scan has ----

  /** A value item of 1 to m bits, or a symbol that announces at most m bits. */
  predicate Sized(t: Item, m: nat) {
    match t
    case Symbol(s) => s <= 0xF0 + m && (m <= 10 ==> s % 16 <= m)
    case Bits(v, n) => 1 <= n <= 16 && v < Pow2(n)
  }

  predicate AllSized(ts: seq<Item>, m: nat) {
    forall i :: 0 <= i < |ts| ==> Sized(ts[i], m)
  }

  lemma SizedSum(a: seq<Item>, b: seq<Item>, m: nat)
    requires AllSized(a, m) && AllSized(b, m)
    ensures AllSized(a + b, m)
  {
    hide Sized;
  }

  lemma SizedRaw(bits: seq<Bit>, m: nat)
    ensures AllSized(RawBits(bits), m)
  {
    assert Pow2(1) == 2;
  }

  lemma SizedRun(run: Run, m: nat)
    requires run.count <= MAX_RUN && 1 <= m
    ensures AllSized(RunItems(run), m)
  {
    hide Pow2, BitLength, RawBits;
    if run.count > 0 {
      SizedLength(run.count, m);
      SizedRaw(run.bits, m);
      var n := BitLength(run.count) - 1;
      var length := [Symbol(16 * n)] + (if n > 0 then [Bits(run.count % Pow2(n), n)] else []);
      SizedSum(length, RawBits(run.bits), m);
    }
  }

  lemma SizedLength(count: nat, m: nat)
    requires 1 <= count <= MAX_RUN && 1 <= m
    ensures var n := BitLength(count) - 1;
      n >= 0 && AllSized([Symbol(16 * n)] + (if n > 0 then [Bits(count % Pow2(n), n)] else []), m)
  {
    hide Pow2, BitLength;
    BitLengthBounds(count);
    BitLengthAtMost(count, 15);
    Pow2Values();
  }

  lemma SizedValue(v: int, r: nat, m: nat)
    requires v != 0 && r < 16 && BitLength(Abs(v)) <= m <= 16
    ensures var n := BitLength(Abs(v)); AllSized([Symbol(16 * r + n), Bits(Extra(v), n)], m)
  {
    BitLengthBounds(Abs(v));
    hide Pow2, BitLength;
    BitLengthAtMost(Abs(v), BitLength(Abs(v)));
  }

  lemma {:induction false} SizedFirst(z: Zz, k: nat, se: nat, r: nat, m: nat)
    requires se < 64 && 1 <= m <= 16 && forall i :: k <= i <= se ==> BitLength(Abs(z[i])) <= m
    ensures AllSized(FirstItems(z, k, se, r), m)
    decreases 64 - k
  {
    hide BitLength, Pow2, Extra;
    if k <= se {
      if z[k] == 0 {
        SizedFirst(z, k + 1, se, r + 1, m);
      } else {
        SizedFirst(z, k + 1, se, 0, m);
        SizedValue(z[k], r % 16, m);
        var value := [Symbol(16 * (r % 16) + BitLength(Abs(z[k]))), Bits(Extra(z[k]), BitLength(Abs(z[k])))];
        SizedSum(ZeroRuns(r / 16), value, m);
        SizedSum(ZeroRuns(r / 16) + value, FirstItems(z, k + 1, se, 0), m);
      }
    }
  }

  lemma {:induction false} SizedRefine(z: Zz, k: nat, se: nat, eob: nat, r: nat, br: seq<Bit>, m: nat)
    requires se < 64 && 1 <= m <= 16 && NoOnes(z, eob + 1, se + 1)
    ensures AllSized(RefineItems(z, k, se, eob, r, br), m)
    decreases 64 - k, r
  {
    if k > se {
    } else if z[k] == 0 {
      SizedRefine(z, k + 1, se, eob, r + 1, br, m);
    } else if r > 15 && k <= eob {
      SizedRefine(z, k, se, eob, r - 16, [], m);
      SizedRaw(br, m);
      SizedSum([Symbol(0xF0)], RawBits(br), m);
      SizedSum([Symbol(0xF0)] + RawBits(br), RefineItems(z, k, se, eob, r - 16, []), m);
    } else if Abs(z[k]) > 1 {
      SizedRefine(z, k + 1, se, eob, r, br + [Abs(z[k]) % 2], m);
    } else {
      SizedRefine(z, k + 1, se, eob, 0, [], m);
      SizedRaw(br, m);
      assert k <= eob && Pow2(1) == 2;
      var head := [Symbol(16 * r + 1), SignItem(z[k])];
      SizedSum(head, RawBits(br), m);
      SizedSum(head + RawBits(br), RefineItems(z, k + 1, se, eob, 0, []), m);
    }
  }

  /** The scan of blocks whose coefficients have at most m bits. */
  predicate Magnitudes(band: Band, zs: seq<Zz>, m: nat)
    requires band.Ok()
  {
    forall j, i :: 0 <= j < |zs| && band.ss <= i <= band.se ==> BitLength(Abs(zs[j][i])) <= m
  }

  lemma {:induction false} SizedScan(band: Band, zs: seq<Zz>, run: Run, m: nat)
    requires band.Ok() && RunOk(run) && 1 <= m <= 16 && (band.refine || Magnitudes(band, zs, m))
    ensures AllSized(band.ScanItems(zs, run), m)
  {
    hide BitLength, RunItems, FirstItems, RefineItems, AllSized, Correct, LastOne;
    SizedRun(run, m);
    if zs != [] {
      var z, rest := zs[0], zs[1..];
      var next := band.BlockRun(z, run);
      RunStaysOk(band, z, run);
      SizedScan(band, rest, next, m);
      SizedBlock(band, z, run, m);
      SizedSum(band.BlockItems(z, run), band.ScanItems(rest, next), m);
    }
  }

  lemma SizedBlock(band: Band, z: Zz, run: Run, m: nat)
    requires band.Ok() && RunOk(run) && 1 <= m <= 16
    requires band.refine || forall i :: band.ss <= i <= band.se ==> BitLength(Abs(z[i])) <= m
    ensures AllSized(band.BlockItems(z, run), m)
  {
    hide BitLength, RunItems, FirstItems, RefineItems, AllSized, Correct, LastOne;
    RunStaysOk(band, z, run);
    if band.Quiet(z) {
      SizedRun(Run(run.count + 1, run.bits + band.Corrections(z)), m);
      NoneSized(m);
    } else {
      SizedRun(run, m);
      if band.refine {
        SizedRefine(z, band.ss, band.se, LastOne(z, band.ss, band.se), 0, [], m);
      } else {
        SizedFirst(z, band.ss, band.se, 0, m);
      }
      SizedSum(RunItems(run), band.Active(z), m);
    }
  }

  lemma NoneSized(m: nat)
    ensures AllSized([], m)
  {
  }

  /** No coefficient has more than 16 bits. */
  lemma AlwaysSixteen(band: Band, blocks: seq<Block>, al: nat)
    requires band.Ok()
    ensures Magnitudes(band, AllScaled(blocks, al), 16)
  {
    hide At, BitLength;
    forall j, i | 0 <= j < |blocks| && band.ss <= i <= band.se
      ensures BitLength(Abs(AllScaled(blocks, al)[j][i])) <= 16
    {
      StageBefore(At(blocks[j], i), al);
      BitLengthAtMost(Abs(AllScaled(blocks, al)[j][i]), 16);
      Pow2Values();
    }
  }

  /** The coefficients of the blocks without their last al bits. */
  function AllScaled(blocks: seq<Block>, al: nat): (r: seq<Zz>)
    ensures |r| == |blocks|
  {
    seq(|blocks|, j requires 0 <= j < |blocks| => Scaled(blocks[j], al))
  }

  /** All blocks can be sent: in a first scan no coefficient has more than 10 bits. */
  predicate AllInRange(band: Band, zs: seq<Zz>)
    requires band.Ok()
  {
    band.refine || forall j :: 0 <= j < |zs| ==> band.InRange(zs[j])
  }

  // ---- statistics ----

  lemma {:induction false} NeverOccurs(ts: seq<Item>, s: nat)
    requires forall i :: 0 <= i < |ts| ==> ts[i] != Symbol(s)
    ensures Occurrences(ts, s) == 0
  {
    if ts != [] {
      NeverOccurs(ts[..|ts| - 1], s);
    }
  }

  lemma {:induction false} DoesOccur(ts: seq<Item>, s: nat, i: nat)
    requires i < |ts| && ts[i] == Symbol(s)
    ensures Occurrences(ts, s) > 0
  {
    if i < |ts| - 1 {
      DoesOccur(ts[..|ts| - 1], s, i);
    }
  }

  /** How many symbols there are among the items. */
  function Symbols(ts: seq<Item>): nat {
    if ts == [] then 0 else Symbols(ts[..|ts| - 1]) + if ts[|ts| - 1].Symbol? then 1 else 0
  }

  /** There are not more counts than symbols. */
  lemma {:induction false} CountsSum(counts: seq<nat>, ts: seq<Item>)
    requires forall s :: 0 <= s < |counts| ==> counts[s] == Occurrences(ts, s)
    ensures Sum(counts) <= Symbols(ts)
    decreases |ts|
  {
    if ts == [] {
      SumNothing(counts);
    } else {
      hide Sum;
      var n := |ts| - 1;
      if ts[n].Symbol? && ts[n].s < |counts| {
        var s := ts[n].s;
        var fewer := counts[s := counts[s] - 1];
        SumUpdate(counts, fewer, s);
        CountsSum(fewer, ts[..n]);
      } else {
        CountsSum(counts, ts[..n]);
      }
    }
  }

  lemma {:induction false} SumNothing(counts: seq<nat>)
    requires forall s :: 0 <= s < |counts| ==> counts[s] == 0
    ensures Sum(counts) == 0
  {
    if counts != [] {
      SumNothing(counts[..|counts| - 1]);
    }
  }

  /** The statistics of a scan within range are such as jpeg_gen_optimal_table expects. */
  lemma BandCountsUsable(counts: seq<nat>, ts: seq<Item>)
    requires |counts| == 256 && forall s :: 0 <= s < 256 ==> counts[s] == Occurrences(ts, s)
    requires AllSized(ts, 10) && ts != [] && ts[0].Symbol?
    ensures 1 <= Used(counts) <= 254 && Sum(counts) <= Symbols(ts)
  {
    hide Used, Sum, Occurrences, Symbols;
    NeverOccurs(ts, 14);
    NeverOccurs(ts, 15);
    UsedWithoutTwo(counts, 14, 15);
    DoesOccur(ts, ts[0].s, 0);
    UsedAtLeast(counts, ts[0].s);
    CountsSum(counts, ts);
  }

  /** The scan of at least one block begins with a symbol. */
  lemma BeginsWithSymbol(band: Band, zs: seq<Zz>)
    requires band.Ok() && zs != []
    ensures var ts := band.ScanItems(zs, NO_RUN); ts != [] && ts[0].Symbol?
  {
    hide FirstItems, RefineItems, RefineTail, BitLength, Pow2, RawBits, LastOne, Band.ScanItems;
    var m := BlockAhead(band, zs);
    var z, more := zs[0], AfterBand(band, band.Tail(zs[0]), zs[1..], m);
    if band.refine {
      var j, event := RefineAhead(z, band.ss, band.ss, band.se, more);
    } else {
      var j := FirstAhead(z, band.ss, band.se, more);
    }
  }

  /** The optimal table of a scan, as both sides derive it; it can only fail when there are very many symbols. */
  method MakeBandTable(counts: array<nat>, ghost ts: seq<Item>)
      returns (ok: bool, e: EncoderTable, d: DecoderTable, ghost t: Table)
    requires counts.Length == SYMBOLS && forall s :: 0 <= s < SYMBOLS ==> counts[s] == Occurrences(ts, s)
    requires AllSized(ts, 10) && Symbols(ts) < LARGE && ts != [] && ts[0].Symbol?
    modifies counts
    ensures Symbols(ts) + 1 < FIB_35 ==> ok
    ensures ok ==> e.For(t) && d.For(t) && Fits(t.Sizes()) && ItemsCovered(e, ts)
  {
    hide Used, Sum, Occurrences, Symbols, TableFor, Covered, EncoderTable.For, DecoderTable.For, Fits, Expand,
      Acceptable, Decodable, ItemsCovered, AllSized;
    ghost var uses := counts[..256];
    BandCountsUsable(uses, ts);
    var huffval := new UInt8[256](_ => 0);
    var made;
    ghost var sizes;
    ok, made, sizes := GenOptimalTable(counts, huffval);
    t, e, d := made, EncoderTable([], []), DecoderTable([], [], [], []);
    if !ok {
      return;
    }
    TableAcceptable(uses, t, false);
    AcceptableDecodable(t, false);
    AcceptableFits(t, false);
    var okE, okD;
    okE, e := MakeEncoderTable(false, made);
    okD, d := MakeDecoderTable(false, made);
    CountedCovered(e, t, uses, ts);
  }

  lemma CountedCovered(e: EncoderTable, t: Table, uses: seq<nat>, ts: seq<Item>)
    requires |uses| == 256 && TableFor(uses, t) && e.For(t) && Fits(t.Sizes()) && AllSized(ts, 10)
    requires forall s :: 0 <= s < 256 ==> uses[s] == Occurrences(ts, s)
    ensures ItemsCovered(e, ts)
  {
    hide Occurrences, Covered, EncoderTable.For, Fits, Expand, Pow2, Used, Units;
    forall i | 0 <= i < |ts|
      ensures ItemCovered(e, ts[i])
    {
      assert Sized(ts[i], 10);
      if ts[i].Symbol? {
        DoesOccur(ts, ts[i].s, i);
        assert uses[ts[i].s] > 0;
        SymbolCovered(e, t, ts[i].s);
      }
    }
  }

  // ---- what is sent ----

  /** No coefficient of the scan has a magnitude that does not fit the words of the encoder. */
  predicate AllRefinable(band: Band, zs: seq<Zz>)
    requires band.Ok()
  {
    forall j :: 0 <= j < |zs| ==> band.Refinable(zs[j])
  }

  /** Then the encoder sends what the specification says. */
  lemma {:induction false} SentExactly(band: Band, zs: seq<Zz>, run: Run)
    requires band.Ok() && AllRefinable(band, zs)
    ensures band.SentScan(zs, run) == band.ScanItems(zs, run)
  {
    hide Band.Refinable, Band.BlockItems, Band.BlockRun, RunItems;
    if zs != [] {
      SentExactly(band, zs[1..], band.BlockRun(zs[0], run));
    }
  }

  // ---- restart intervals ----

  /** What is sent for all intervals of a scan; every interval starts without a pending run. */
  function IntervalItems(band: Band, al: nat, intervals: seq<seq<Block>>): seq<Item>
    requires band.Ok()
  {
    if intervals == [] then []
    else
      var n := |intervals| - 1;
      IntervalItems(band, al, intervals[..n]) + band.SentScan(AllScaled(intervals[n], al), NO_RUN)
  }

  lemma IntervalItemsSnoc(band: Band, al: nat, intervals: seq<seq<Block>>, last: seq<Block>)
    requires band.Ok()
    ensures IntervalItems(band, al, intervals + [last])
         == IntervalItems(band, al, intervals) + band.SentScan(AllScaled(last, al), NO_RUN)
  {
    hide Band.SentScan;
    assert (intervals + [last])[..|intervals|] == intervals;
  }

  predicate EachSized(band: Band, al: nat, intervals: seq<seq<Block>>, m: nat)
    requires band.Ok()
  {
    forall i :: 0 <= i < |intervals| ==> AllSized(band.SentScan(AllScaled(intervals[i], al), NO_RUN), m)
  }

  lemma {:induction false} SizedIntervals(band: Band, al: nat, intervals: seq<seq<Block>>, m: nat)
    requires band.Ok() && EachSized(band, al, intervals, m)
    ensures AllSized(IntervalItems(band, al, intervals), m)
  {
    hide AllSized, Band.SentScan, AllScaled;
    if intervals == [] {
      NoneSized(m);
    } else {
      var n := |intervals| - 1;
      SizedIntervals(band, al, intervals[..n], m);
      SizedSum(IntervalItems(band, al, intervals[..n]), band.SentScan(AllScaled(intervals[n], al), NO_RUN), m);
    }
  }

  lemma {:induction false} BeginsIntervals(band: Band, al: nat, intervals: seq<seq<Block>>)
    requires band.Ok() && intervals != [] && intervals[0] != [] && AllRefinable(band, AllScaled(intervals[0], al))
    ensures var ts := IntervalItems(band, al, intervals); ts != [] && ts[0].Symbol?
  {
    hide Band.SentScan, AllScaled;
    var n := |intervals| - 1;
    if n == 0 {
      BeginsWithSymbol(band, AllScaled(intervals[0], al));
      SentExactly(band, AllScaled(intervals[0], al), NO_RUN);
      assert IntervalItems(band, al, intervals[..0]) == [];
    } else {
      BeginsIntervals(band, al, intervals[..n]);
    }
  }
}
