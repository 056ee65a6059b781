/**
  What a progressive AC scan sends with Huffman codes, after Rec. ITU-T T.81 sections G.1.2.2 and G.1.2.3, one
  coefficient at a time: symbols, extra bits, correction bits, and runs of blocks without anything new.
*/
module EobRuns {
  import opened Powers
  import opened BitString
  import opened Coefficients
  import opened SuccessiveApproximation
  import opened HuffmanTables
  import opened HuffmanTokens

  /** A Huffman symbol, or the low n bits of v as they are. */
  datatype Item = Symbol(s: nat) | Bits(v: nat, n: nat)

  function RawBits(bits: seq<Bit>): (r: seq<Item>)
    ensures |r| == |bits|
  {
    seq(|bits|, i requires 0 <= i < |bits| => Bits(bits[i], 1))
  }

  predicate ItemCovered(e: EncoderTable, t: Item) {
    match t
    case Symbol(s) => Covered(e, s)
    case Bits(v, n) => 1 <= n <= 16 && v < Pow2(n)
  }

  predicate ItemsCovered(e: EncoderTable, ts: seq<Item>) {
    forall i :: 0 <= i < |ts| ==> ItemCovered(e, ts[i])
  }

  function ItemBits(e: EncoderTable, t: Item): seq<Bit>
    requires ItemCovered(e, t)
  {
    match t
    case Symbol(s) => SymbolBits(e, s)
    case Bits(v, n) => BitsOf(v, n)
  }

  function ItemsBits(e: EncoderTable, ts: seq<Item>): seq<Bit>
    requires ItemsCovered(e, ts)
  {
    if ts == [] then [] else ItemBits(e, ts[0]) + ItemsBits(e, ts[1..])
  }

  lemma {:induction false} ItemsBitsAppend(e: EncoderTable, a: seq<Item>, b: seq<Item>)
    requires ItemsCovered(e, a) && ItemsCovered(e, b)
    ensures ItemsCovered(e, a + b) && ItemsBits(e, a + b) == ItemsBits(e, a) + ItemsBits(e, b)
  {
    hide ItemBits, ItemCovered;
    if a == [] {
      assert a + b == b;
    } else {
      ItemsBitsAppend(e, a[1..], b);
      assert (a + b)[1..] == a[1..] + b;
    }
  }

  lemma ItemsParts(e: EncoderTable, a: seq<Item>, b: seq<Item>)
    requires ItemsCovered(e, a + b)
    ensures ItemsCovered(e, a) && ItemsCovered(e, b)
  {
    hide ItemCovered;
    assert forall i :: 0 <= i < |a| ==> (a + b)[i] == a[i];
    assert forall i :: 0 <= i < |b| ==> (a + b)[|a| + i] == b[i];
  }

  /** Blocks whose bands have ended but not been sent, and the correction bits that go with them. */
  datatype Run = Run(count: nat, bits: seq<Bit>)

  const NO_RUN := Run(0, [])
  const MAX_RUN: nat := 0x7FFF
  const MAX_CORR_BITS: nat := 1000

  /** The end-of-band run of a known length: its size as a symbol, its other bits, the correction bits. */
  function RunItems(run: Run): seq<Item> {
    if run.count == 0 then []
    else
      var n := BitLength(run.count) - 1;
      [Symbol(16 * n)] + (if n > 0 then [Bits(run.count % Pow2(n), n)] else []) + RawBits(run.bits)
  }

  /** A run must be sent when it is as long as can be expressed, or its correction bits might not fit. */
  predicate Full(run: Run) {
    run.count == MAX_RUN || |run.bits| > MAX_CORR_BITS - 64 + 1
  }

  /** A band of coefficients, sent for the first time or refined. */
  datatype Band = Band(refine: bool, ss: nat, se: nat) {
    predicate Ok() {
      1 <= ss <= se < 64
    }

    /** No coefficient of the band has more than 10 bits. */
    predicate InRange(z: Zz)
      requires Ok()
    {
      forall i :: ss <= i <= se ==> BitLength(Abs(z[i])) <= MAX_COEF_BITS
    }

    /** Nothing new in the band. */
    predicate Quiet(z: Zz)
      requires Ok()
    {
      if refine then NoOnes(z, ss, se + 1) else AllZero(z, ss, se)
    }

    /** The correction bits of a quiet band. */
    function Corrections(z: Zz): seq<Bit>
      requires Ok()
    {
      if refine then Correct(z, ss, se + 1) else []
    }

    /** What is sent of a band that has something new, up to the last of it. */
    function Active(z: Zz): seq<Item>
      requires Ok()
    {
      if refine then RefineItems(z, ss, se, LastOne(z, ss, se), 0, []) else FirstItems(z, ss, se, 0)
    }

    /** The run that its trailing coefficients begin. */
    function Tail(z: Zz): Run
      requires Ok()
    {
      if refine then RefineTail(z, ss, se, LastOne(z, ss, se), 0, [])
      else if z[se] == 0 then Run(1, []) else NO_RUN
    }

    /** What is sent for a block, given the run before it. */
    function BlockItems(z: Zz, run: Run): seq<Item>
      requires Ok()
    {
      if Quiet(z) then
        var longer := Run(run.count + 1, run.bits + Corrections(z));
        if Full(longer) then RunItems(longer) else []
      else RunItems(run) + Active(z)
    }

    function BlockRun(z: Zz, run: Run): Run
      requires Ok()
    {
      if Quiet(z) then
        var longer := Run(run.count + 1, run.bits + Corrections(z));
        if Full(longer) then NO_RUN else longer
      else Tail(z)
    }

    /** What is sent for the blocks of a scan. */
    function ScanItems(zs: seq<Zz>, run: Run): seq<Item>
      requires Ok()
    {
      if zs == [] then RunItems(run)
      else BlockItems(zs[0], run) + ScanItems(zs[1..], BlockRun(zs[0], run))
    }

    /** No coefficient to be refined has the magnitude 2^15, which does not fit the 16-bit words of the encoder. */
    predicate Refinable(z: Zz)
      requires Ok()
    {
      refine ==> forall i :: ss <= i <= se ==> Abs(z[i]) != 0x8000
    }

    /** The band as the encoder's walk sees it: a magnitude of 2^15 has become negative and is taken for a new one. */
    function Walked(z: Zz): (w: Zz)
      requires Ok()
      ensures w == z <==> Refinable(z)
    {
      var w := seq(64, i requires 0 <= i < 64 =>
        if refine && ss <= i <= se && Abs(z[i]) == 0x8000 then (if z[i] < 0 then -1 else 1) else z[i]);
      assert w != z ==> exists i :: 0 <= i < 64 && w[i] != z[i];
      assert forall i :: 0 <= i < 64 && w[i] != z[i] ==> !Refinable(z);
      assert !Refinable(z) ==> exists i :: ss <= i <= se && w[i] != z[i];
      w
    }

    /** What the encoder sends for a block: where the last new coefficient is was found before magnitudes were stored. */
    function SentItems(z: Zz, run: Run): seq<Item>
      requires Ok()
    {
      if Refinable(z) then BlockItems(z, run)
      else RunItems(run) + RefineItems(Walked(z), ss, se, LastOne(z, ss, se), 0, [])
    }

    function SentRun(z: Zz, run: Run): Run
      requires Ok()
    {
      if Refinable(z) then BlockRun(z, run)
      else RefineTail(Walked(z), ss, se, LastOne(z, ss, se), 0, [])
    }

    /** What the encoder sends for the blocks of a scan. */
    function SentScan(zs: seq<Zz>, run: Run): seq<Item>
      requires Ok()
    {
      if zs == [] then RunItems(run)
      else SentItems(zs[0], run) + SentScan(zs[1..], SentRun(zs[0], run))
    }
  }

  // ---- first scans: Figure G.3 ----

  function ZeroRuns(n: nat): seq<Item> {
    seq(n, _ => Symbol(0xF0))
  }

  /** The coefficients from k on, behind a run of r zeros, up to the last that is not zero. */
  function FirstItems(z: Zz, k: nat, se: nat, r: nat): seq<Item>
    requires se < 64
    decreases 64 - k
  {
    if k > se then []
    else if z[k] == 0 then FirstItems(z, k + 1, se, r + 1)
    else
      var n := BitLength(Abs(z[k]));
      ZeroRuns(r / 16) + [Symbol(16 * (r % 16) + n), Bits(Extra(z[k]), n)] + FirstItems(z, k + 1, se, 0)
  }

  // ---- refinement: Figure G.7 ----

  predicate NoOnes(z: Zz, k: nat, j: nat)
    requires j <= 64
  {
    forall i :: k <= i < j ==> Abs(z[i]) != 1
  }

  /** The correction bits of coefficients k up to j that were already nonzero. */
  function Correct(z: Zz, k: nat, j: nat): seq<Bit>
    requires j <= 64
    decreases 64 - k
  {
    if k >= j then []
    else (if Abs(z[k]) > 1 then [Abs(z[k]) % 2] else []) + Correct(z, k + 1, j)
  }

  /** The last coefficient that becomes nonzero now; ss if there is none. */
  function LastOne(z: Zz, ss: nat, se: nat): (eob: nat)
    requires ss <= se < 64
    ensures ss <= eob <= se && NoOnes(z, eob + 1, se + 1)
    ensures eob > ss ==> Abs(z[eob]) == 1
    decreases se
  {
    if ss == se || Abs(z[se]) == 1 then se
    else LastOne(z, ss, se - 1)
  }

  function SignItem(v: int): Item {
    Bits(if v < 0 then 0 else 1, 1)
  }

  /** From k on, behind r zeros and the correction bits br; eob is the last new coefficient. */
  function RefineItems(z: Zz, k: nat, se: nat, eob: nat, r: nat, br: seq<Bit>): seq<Item>
    requires se < 64
    decreases 64 - k, r
  {
    if k > se then []
    else if z[k] == 0 then RefineItems(z, k + 1, se, eob, r + 1, br)
    else if r > 15 && k <= eob then [Symbol(0xF0)] + RawBits(br) + RefineItems(z, k, se, eob, r - 16, [])
    else if Abs(z[k]) > 1 then RefineItems(z, k + 1, se, eob, r, br + [Abs(z[k]) % 2])
    else [Symbol(16 * r + 1), SignItem(z[k])] + RawBits(br) + RefineItems(z, k + 1, se, eob, 0, [])
  }

  function RefineTail(z: Zz, k: nat, se: nat, eob: nat, r: nat, br: seq<Bit>): Run
    requires se < 64
    decreases 64 - k, r
  {
    if k > se then (if r > 0 || br != [] then Run(1, br) else NO_RUN)
    else if z[k] == 0 then RefineTail(z, k + 1, se, eob, r + 1, br)
    else if r > 15 && k <= eob then RefineTail(z, k, se, eob, r - 16, [])
    else if Abs(z[k]) > 1 then RefineTail(z, k + 1, se, eob, r, br + [Abs(z[k]) % 2])
    else RefineTail(z, k + 1, se, eob, 0, [])
  }

  // ---- invariants of runs ----

  /** Between blocks the run is short of full, and correction bits do not wait without one. */
  predicate RunOk(run: Run) {
    !Full(run) && run.count < MAX_RUN && (run.bits != [] ==> run.count > 0)
  }

  lemma {:induction false} CorrectLength(z: Zz, k: nat, j: nat)
    requires j <= 64
    ensures |Correct(z, k, j)| <= if k < j then j - k else 0
    decreases 64 - k
  {
    if k < j {
      CorrectLength(z, k + 1, j);
    }
  }

  lemma {:induction false} TailBits(z: Zz, k: nat, se: nat, eob: nat, r: nat, br: seq<Bit>)
    requires se < 64
    ensures var t := RefineTail(z, k, se, eob, r, br);
      t.count <= 1 && |t.bits| <= |br| + (if k <= se then se + 1 - k else 0) && (t.bits != [] ==> t.count == 1)
    decreases 64 - k, r
  {
    if k > se {
    } else if z[k] == 0 {
      TailBits(z, k + 1, se, eob, r + 1, br);
    } else if r > 15 && k <= eob {
      TailBits(z, k, se, eob, r - 16, []);
    } else if Abs(z[k]) > 1 {
      TailBits(z, k + 1, se, eob, r, br + [Abs(z[k]) % 2]);
    } else {
      TailBits(z, k + 1, se, eob, 0, []);
    }
  }

  /**
    Every block keeps the run within bounds: never more than MAX_RUN blocks, never more than MAX_CORR_BITS
    correction bits at the moment they are sent.
  */
  lemma RunStaysOk(band: Band, z: Zz, run: Run)
    requires band.Ok() && RunOk(run)
    ensures RunOk(band.BlockRun(z, run)) && RunOk(band.SentRun(z, run))
    ensures band.Quiet(z) ==> run.count + 1 <= MAX_RUN && |run.bits + band.Corrections(z)| <= MAX_CORR_BITS
  {
    if band.refine {
      CorrectLength(z, band.ss, band.se + 1);
      TailBits(z, band.ss, band.se, LastOne(z, band.ss, band.se), 0, []);
      TailBits(band.Walked(z), band.ss, band.se, LastOne(z, band.ss, band.se), 0, []);
    }
  }

  // ---- taking items apart, from the front ----

  lemma {:induction false} FirstSkip(z: Zz, k: nat, j: nat, se: nat, r: nat)
    requires se < 64 && k <= j <= se + 1 && forall i :: k <= i < j ==> z[i] == 0
    ensures FirstItems(z, k, se, r) == FirstItems(z, j, se, r + (j - k))
    decreases j - k
  {
    if k < j {
      FirstSkip(z, k + 1, j, se, r + 1);
    }
  }

  lemma FirstStep(z: Zz, k: nat, se: nat, r: nat, more: seq<Item>)
    requires k <= se < 64 && z[k] != 0
    ensures var n := BitLength(Abs(z[k]));
      FirstItems(z, k, se, r) + more ==
      if r > 15 then [Symbol(0xF0)] + (FirstItems(z, k, se, r - 16) + more)
      else [Symbol(16 * r + n)] + ([Bits(Extra(z[k]), n)] + (FirstItems(z, k + 1, se, 0) + more))
  {
    hide Extra, BitLength;
    var rest := FirstItems(z, k + 1, se, 0);
    ZeroRunsStep(r);
    if r > 15 {
      var n := BitLength(Abs(z[k]));
      var runs, value := ZeroRuns((r - 16) / 16), [Symbol(16 * (r % 16) + n), Bits(Extra(z[k]), n)];
      assert ([Symbol(0xF0)] + runs) + value + rest + more == [Symbol(0xF0)] + (runs + value + rest + more);
    }
  }

  lemma ZeroRunsStep(r: nat)
    ensures r <= 15 ==> ZeroRuns(r / 16) == [] && r % 16 == r
    ensures r > 15 ==> ZeroRuns(r / 16) == [Symbol(0xF0)] + ZeroRuns((r - 16) / 16) && (r - 16) % 16 == r % 16
  {
    if r > 15 {
      assert (r - 16) / 16 == r / 16 - 1;
    }
  }

  lemma {:induction false} RefineSkip(z: Zz, k: nat, j: nat, se: nat, eob: nat, r: nat, br: seq<Bit>)
    requires se < 64 && k <= j <= se + 1 && forall i :: k <= i < j ==> z[i] == 0
    ensures RefineItems(z, k, se, eob, r, br) == RefineItems(z, j, se, eob, r + (j - k), br)
    ensures RefineTail(z, k, se, eob, r, br) == RefineTail(z, j, se, eob, r + (j - k), br)
    decreases j - k
  {
    if k < j {
      RefineSkip(z, k + 1, j, se, eob, r + 1, br);
    }
  }

  lemma RefineStep(z: Zz, k: nat, se: nat, eob: nat, r: nat, br: seq<Bit>, more: seq<Item>)
    requires k <= se < 64 && z[k] != 0
    ensures RefineItems(z, k, se, eob, r, br) + more ==
      if r > 15 && k <= eob then
        [Symbol(0xF0)] + (RawBits(br) + (RefineItems(z, k, se, eob, r - 16, []) + more))
      else if Abs(z[k]) > 1 then RefineItems(z, k + 1, se, eob, r, br + [Abs(z[k]) % 2]) + more
      else
        [Symbol(16 * r + 1)] + ([SignItem(z[k])] + (RawBits(br) + (RefineItems(z, k + 1, se, eob, 0, []) + more)))
    ensures RefineTail(z, k, se, eob, r, br) ==
      if r > 15 && k <= eob then RefineTail(z, k, se, eob, r - 16, [])
      else if Abs(z[k]) > 1 then RefineTail(z, k + 1, se, eob, r, br + [Abs(z[k]) % 2])
      else RefineTail(z, k + 1, se, eob, 0, [])
  {
    hide RawBits, SignItem;
    if r > 15 && k <= eob {
      Split3([Symbol(0xF0)], RawBits(br), RefineItems(z, k, se, eob, r - 16, []), more);
    } else if Abs(z[k]) <= 1 {
      var head := [Symbol(16 * r + 1), SignItem(z[k])];
      var rest := RefineItems(z, k + 1, se, eob, 0, []);
      Split3(head, RawBits(br), rest, more);
      assert head == [Symbol(16 * r + 1)] + [SignItem(z[k])];
      var after := RawBits(br) + (rest + more);
      assert [Symbol(16 * r + 1)] + [SignItem(z[k])] + after == [Symbol(16 * r + 1)] + ([SignItem(z[k])] + after);
    }
  }

  lemma Split3<T>(a: seq<T>, b: seq<T>, c: seq<T>, d: seq<T>)
    ensures (a + b + c) + d == a + (b + (c + d))
  {
  }

  lemma RefineEnd(z: Zz, se: nat, eob: nat, r: nat, br: seq<Bit>)
    requires se < 64
    ensures RefineItems(z, se + 1, se, eob, r, br) == []
    ensures RefineTail(z, se + 1, se, eob, r, br) == if r > 0 || br != [] then Run(1, br) else NO_RUN
  {
  }

  /** Without anything new, a band only adds its correction bits to the run. */
  lemma {:induction false} QuietRefine(z: Zz, k: nat, ss: nat, se: nat, r: nat, br: seq<Bit>)
    requires 1 <= ss <= k <= se + 1 <= 64 && NoOnes(z, k, se + 1) && r <= k - ss
    ensures RefineItems(z, k, se, ss, r, br) == []
    ensures k <= se || r > 0 || br != [] ==> RefineTail(z, k, se, ss, r, br) == Run(1, br + Correct(z, k, se + 1))
    decreases se + 1 - k
  {
    if k > se {
      assert br + Correct(z, k, se + 1) == br;
    } else if z[k] == 0 {
      QuietRefine(z, k + 1, ss, se, r + 1, br);
      assert br + Correct(z, k, se + 1) == br + Correct(z, k + 1, se + 1);
    } else {
      QuietRefine(z, k + 1, ss, se, r, br + [Abs(z[k]) % 2]);
      assert br + Correct(z, k, se + 1) == br + [Abs(z[k]) % 2] + Correct(z, k + 1, se + 1);
    }
  }

  lemma {:induction false} QuietBand(z: Zz, ss: nat, se: nat)
    requires 1 <= ss <= se < 64 && NoOnes(z, ss, se + 1)
    ensures LastOne(z, ss, se) == ss
    ensures RefineItems(z, ss, se, ss, 0, []) == []
    ensures RefineTail(z, ss, se, ss, 0, []) == Run(1, Correct(z, ss, se + 1))
  {
    NoLastOne(z, ss, se);
    QuietRefine(z, ss, ss, se, 0, []);
    assert [] + Correct(z, ss, se + 1) == Correct(z, ss, se + 1);
    if z[ss] != 0 {
      assert Correct(z, ss, se + 1) != [];
    }
  }

  lemma {:induction false} NoLastOne(z: Zz, ss: nat, se: nat)
    requires ss <= se < 64 && NoOnes(z, ss, se + 1)
    ensures LastOne(z, ss, se) == ss
    decreases se
  {
    if ss < se {
      NoLastOne(z, ss, se - 1);
    }
  }
}
