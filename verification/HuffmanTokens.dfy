/**
  What Huffman coding sends for a block, after Rec. ITU-T T.81 section F.1.2: symbols, each followed by
  extra bits that complete a value.
*/
module HuffmanTokens {
  import opened Powers
  import opened ByteStream
  import opened BitString
  import opened Coefficients
  import opened RestartIntervals
  import opened HuffmanTables

  const NUM_HUFF_TBLS: nat := 4

  /** The greatest size of an AC value of 8-bit samples. */
  const MAX_COEF_BITS: nat := 10

  datatype TableId = DcTable(n: nat) | AcTable(n: nat)

  /** A symbol under one of the tables, and the low size bits of extra. */
  datatype Token = Token(table: TableId, symbol: nat, extra: nat, size: nat)

  /** The bits that complete a value of a known size: the value, or the complement of its magnitude. */
  function Extra(v: int): (e: nat)
    ensures e < Pow2(BitLength(Abs(v)))
  {
    BitLengthAtMost(Abs(v), BitLength(Abs(v)));
    if v >= 0 then v else v - 1 + Pow2(BitLength(Abs(v)))
  }

  function DcToken(tbl: nat, diff: int): Token {
    Token(DcTable(tbl), BitLength(Abs(diff)), Extra(diff), BitLength(Abs(diff)))
  }

  /** A value behind a run of r < 16 zeros. */
  function RunToken(tbl: nat, r: nat, v: int): Token {
    Token(AcTable(tbl), 16 * r + BitLength(Abs(v)), Extra(v), BitLength(Abs(v)))
  }

  /** n runs of 16 zeros each. */
  function LongRuns(tbl: nat, n: nat): seq<Token> {
    seq(n, _ => Token(AcTable(tbl), 0xF0, 0, 0))
  }

  function EndOfBlock(tbl: nat): Token {
    Token(AcTable(tbl), 0, 0, 0)
  }

  /** The coefficients from k on, behind a run of r zeros. */
  function AcTokens(tbl: nat, z: Zz, k: nat, r: nat): seq<Token>
    requires k <= 64
    decreases 64 - k
  {
    if k == 64 then (if r > 0 then [EndOfBlock(tbl)] else [])
    else if z[k] == 0 then AcTokens(tbl, z, k + 1, r + 1)
    else LongRuns(tbl, r / 16) + [RunToken(tbl, r % 16, z[k])] + AcTokens(tbl, z, k + 1, 0)
  }

  // ---- MCUs ----

  datatype Component = Component(dcTbl: nat, acTbl: nat)

  /** The components of a scan, and the component of each block of an MCU. */
  datatype Scan = Scan(comps: seq<Component>, membership: seq<nat>) {
    predicate Ok() {
      && (forall i :: 0 <= i < |comps| ==> comps[i].dcTbl < NUM_HUFF_TBLS && comps[i].acTbl < NUM_HUFF_TBLS)
      && (forall i :: 0 <= i < |membership| ==> membership[i] < |comps|)
    }
  }

  function BlockTokens(c: Component, last: int, b: Block): seq<Token> {
    [DcToken(c.dcTbl, b[0] - last)] + AcTokens(c.acTbl, InZigzag(b), 1, 0)
  }

  /** The blocks of an MCU from the n-th on, given the last DC value of each component. */
  function McuTokens(scan: Scan, last: seq<int>, mcu: seq<Block>, n: nat): seq<Token>
    requires scan.Ok() && |last| == |scan.comps| && n <= |mcu| == |scan.membership|
    decreases |mcu| - n
  {
    if n == |mcu| then []
    else
      var ci := scan.membership[n];
      BlockTokens(scan.comps[ci], last[ci], mcu[n]) + McuTokens(scan, last[ci := mcu[n][0]], mcu, n + 1)
  }

  /** The last DC values after the MCU. */
  function McuLast(scan: Scan, last: seq<int>, mcu: seq<Block>, n: nat): (r: seq<int>)
    requires scan.Ok() && |last| == |scan.comps| && n <= |mcu| == |scan.membership|
    ensures |r| == |last|
    decreases |mcu| - n
  {
    if n == |mcu| then last
    else McuLast(scan, last[scan.membership[n] := mcu[n][0]], mcu, n + 1)
  }

  // ---- bits ----

  /** The derived tables of the encoder. */
  datatype Coders = Coders(dc: seq<EncoderTable>, ac: seq<EncoderTable>) {
    predicate Sized() {
      |dc| == |ac| == NUM_HUFF_TBLS
    }

    predicate Has(id: TableId) {
      id.n < NUM_HUFF_TBLS
    }

    function Get(id: TableId): EncoderTable
      requires Sized() && Has(id)
    {
      if id.DcTable? then dc[id.n] else ac[id.n]
    }
  }

  /** A symbol has a code, and the code fits its length. */
  predicate Covered(e: EncoderTable, symbol: nat) {
    && |e.ehufco| == |e.ehufsi| == 256 && symbol < 256
    && 1 <= e.ehufsi[symbol] <= 16 && e.ehufco[symbol] < Pow2(e.ehufsi[symbol])
  }

  predicate TokenCovered(coders: Coders, t: Token)
    requires coders.Sized()
  {
    coders.Has(t.table) && Covered(coders.Get(t.table), t.symbol) && t.size <= 15 && t.extra < Pow2(t.size)
  }

  predicate AllCovered(coders: Coders, ts: seq<Token>)
    requires coders.Sized()
  {
    forall i :: 0 <= i < |ts| ==> TokenCovered(coders, ts[i])
  }

  function SymbolBits(e: EncoderTable, symbol: nat): seq<Bit>
    requires Covered(e, symbol)
  {
    BitsOf(e.ehufco[symbol], e.ehufsi[symbol])
  }

  function TokenBits(coders: Coders, t: Token): seq<Bit>
    requires coders.Sized() && TokenCovered(coders, t)
  {
    SymbolBits(coders.Get(t.table), t.symbol) + BitsOf(t.extra, t.size)
  }

  function TokensBits(coders: Coders, ts: seq<Token>): seq<Bit>
    requires coders.Sized() && AllCovered(coders, ts)
  {
    if ts == [] then [] else TokenBits(coders, ts[0]) + TokensBits(coders, ts[1..])
  }

  lemma {:induction false} TokensBitsAppend(coders: Coders, a: seq<Token>, b: seq<Token>)
    requires coders.Sized() && AllCovered(coders, a) && AllCovered(coders, b)
    ensures AllCovered(coders, a + b) && TokensBits(coders, a + b) == TokensBits(coders, a) + TokensBits(coders, b)
  {
    hide TokenBits, TokenCovered;
    if a == [] {
      assert a + b == b;
    } else {
      TokensBitsAppend(coders, a[1..], b);
      assert (a + b)[1..] == a[1..] + b;
    }
  }

  // ---- taking token sequences apart, from the front ----

  lemma AcTokensStep(tbl: nat, z: Zz, k: nat, r: nat, more: seq<Token>)
    requires k <= 64
    ensures AcTokens(tbl, z, k, r) + more ==
      if k == 64 then (if r > 0 then [EndOfBlock(tbl)] + more else more)
      else if z[k] == 0 then AcTokens(tbl, z, k + 1, r + 1) + more
      else if r > 15 then [Token(AcTable(tbl), 0xF0, 0, 0)] + (AcTokens(tbl, z, k, r - 16) + more)
      else [RunToken(tbl, r, z[k])] + (AcTokens(tbl, z, k + 1, 0) + more)
  {
    hide RunToken, LongRuns;
    if k < 64 && z[k] != 0 {
      var rest := AcTokens(tbl, z, k + 1, 0);
      LongRunsStep(tbl, r);
      if r > 15 {
        var zrl, runs, token := [Token(AcTable(tbl), 0xF0, 0, 0)], LongRuns(tbl, (r - 16) / 16),
          [RunToken(tbl, r % 16, z[k])];
        assert (zrl + runs) + token + rest + more == zrl + (runs + token + rest + more);
      }
    }
  }

  lemma LongRunsStep(tbl: nat, r: nat)
    ensures r <= 15 ==> LongRuns(tbl, r / 16) == [] && r % 16 == r
    ensures r > 15 ==>
      && LongRuns(tbl, r / 16) == [Token(AcTable(tbl), 0xF0, 0, 0)] + LongRuns(tbl, (r - 16) / 16)
      && (r - 16) % 16 == r % 16
  {
    if r > 15 {
      assert (r - 16) / 16 == r / 16 - 1;
    }
  }

  /** The masked bits of a value, or of its complement if it is negative. */
  lemma ExtraMask(v: int)
    ensures (if v < 0 then v - 1 else v) % Pow2(BitLength(Abs(v))) == Extra(v)
  {
    hide Pow2, BitLength;
    var n := BitLength(Abs(v));
    BitLengthAtMost(Abs(v), n);
    if v < 0 {
      DivModUnique(v - 1, -1, v - 1 + Pow2(n), Pow2(n));
    } else {
      DivModUnique(v, 0, v, Pow2(n));
    }
  }

  lemma McuTokensStep(scan: Scan, last: seq<int>, mcu: seq<Block>, n: nat, more: seq<Token>)
    requires scan.Ok() && |last| == |scan.comps| && n <= |mcu| == |scan.membership|
    ensures n == |mcu| ==> McuTokens(scan, last, mcu, n) + more == more && McuLast(scan, last, mcu, n) == last
    ensures n < |mcu| ==>
      var ci := scan.membership[n];
      && McuTokens(scan, last, mcu, n) + more
         == BlockTokens(scan.comps[ci], last[ci], mcu[n]) + (McuTokens(scan, last[ci := mcu[n][0]], mcu, n + 1) + more)
      && McuLast(scan, last, mcu, n) == McuLast(scan, last[ci := mcu[n][0]], mcu, n + 1)
  {
    hide BlockTokens;
  }

  // ---- restart intervals ----

  predicate McusOk(scan: Scan, mcus: seq<seq<Block>>) {
    forall i :: 0 <= i < |mcus| ==> |mcus[i]| == |scan.membership|
  }

  /** DC predictions at the start of a scan and after each restart marker. */
  function NoLast(scan: Scan): (r: seq<int>)
    ensures |r| == |scan.comps|
  {
    seq(|scan.comps|, _ => 0)
  }

  function IntervalTokens(scan: Scan, last: seq<int>, mcus: seq<seq<Block>>): seq<Token>
    requires scan.Ok() && |last| == |scan.comps| && McusOk(scan, mcus)
    decreases |mcus|
  {
    if mcus == [] then []
    else McuTokens(scan, last, mcus[0], 0) + IntervalTokens(scan, McuLast(scan, last, mcus[0], 0), mcus[1..])
  }

  function IntervalLast(scan: Scan, last: seq<int>, mcus: seq<seq<Block>>): (r: seq<int>)
    requires scan.Ok() && |last| == |scan.comps| && McusOk(scan, mcus)
    ensures |r| == |last|
    decreases |mcus|
  {
    if mcus == [] then last else IntervalLast(scan, McuLast(scan, last, mcus[0], 0), mcus[1..])
  }

  lemma {:induction false} IntervalSnoc(scan: Scan, last: seq<int>, mcus: seq<seq<Block>>, mcu: seq<Block>)
    requires scan.Ok() && |last| == |scan.comps| && McusOk(scan, mcus) && |mcu| == |scan.membership|
    ensures McusOk(scan, mcus + [mcu])
    ensures IntervalTokens(scan, last, mcus + [mcu])
         == IntervalTokens(scan, last, mcus) + McuTokens(scan, IntervalLast(scan, last, mcus), mcu, 0)
    ensures IntervalLast(scan, last, mcus + [mcu]) == McuLast(scan, IntervalLast(scan, last, mcus), mcu, 0)
    decreases |mcus|
  {
    hide McuTokens, McuLast;
    var all := mcus + [mcu];
    if mcus == [] {
      assert all[1..] == [];
    } else {
      IntervalSnoc(scan, McuLast(scan, last, mcus[0], 0), mcus[1..], mcu);
      assert all[1..] == mcus[1..] + [mcu] && all[0] == mcus[0];
    }
  }

  /**
    The tokens of a scan in the order they are coded; the predictions are reset when togo, the number of MCUs left in
    the restart interval, has run out.
  */
  function RunTokens(scan: Scan, restartInterval: nat, last: seq<int>, togo: nat, mcus: seq<seq<Block>>): seq<Token>
    requires scan.Ok() && |last| == |scan.comps| && McusOk(scan, mcus)
    decreases |mcus|
  {
    if mcus == [] then []
    else
      var from := RunLast(scan, restartInterval, last, togo);
      McuTokens(scan, from, mcus[0], 0)
      + RunTokens(scan, restartInterval, McuLast(scan, from, mcus[0], 0), RunTogo(restartInterval, togo), mcus[1..])
  }

  /** The predictions that the next MCU starts from. */
  function RunLast(scan: Scan, restartInterval: nat, last: seq<int>, togo: nat): (r: seq<int>)
    requires |last| == |scan.comps|
    ensures |r| == |scan.comps|
  {
    if restartInterval != 0 && togo == 0 then NoLast(scan) else last
  }

  lemma RunTokensStep(scan: Scan, restartInterval: nat, last: seq<int>, togo: nat, mcus: seq<seq<Block>>, i: nat)
    requires scan.Ok() && |last| == |scan.comps| && McusOk(scan, mcus) && i <= |mcus|
    ensures i == |mcus| ==> RunTokens(scan, restartInterval, last, togo, mcus[i..]) == []
    ensures i < |mcus| ==>
      var from := RunLast(scan, restartInterval, last, togo);
      RunTokens(scan, restartInterval, last, togo, mcus[i..])
      == McuTokens(scan, from, mcus[i], 0)
         + RunTokens(scan, restartInterval, McuLast(scan, from, mcus[i], 0), RunTogo(restartInterval, togo),
           mcus[i + 1..])
  {
    hide McuTokens, McuLast, RunLast, RunTogo;
    if i < |mcus| {
      assert mcus[i..][1..] == mcus[i + 1..];
    }
  }

  /** The bytes of a segment hold the tokens of an interval, filled up with ones. */
  predicate Encodes(coders: Coders, scan: Scan, data: seq<byte>, mcus: seq<seq<Block>>) {
    && coders.Sized() && scan.Ok() && McusOk(scan, mcus)
    && var ts := IntervalTokens(scan, NoLast(scan), mcus);
    && AllCovered(coders, ts)
    && exists pad: nat :: pad < 8 && Flat(data) == TokensBits(coders, ts) + Padding(pad)
  }

  function Padding(pad: nat): seq<Bit> {
    seq(pad, _ => 1)
  }

  // ---- reading the tokens of a block ----

  lemma {:induction false} SkipZeros(tbl: nat, z: Zz, k: nat, j: nat, r: nat)
    requires k <= j <= 64 && forall i :: k <= i < j ==> z[i] == 0
    ensures AcTokens(tbl, z, k, r) == AcTokens(tbl, z, j, r + (j - k))
    decreases j - k
  {
    if k < j {
      SkipZeros(tbl, z, k + 1, j, r + 1);
    }
  }

  /** The next token, when the coefficients from k up to j are zero and j is the next other one, or 64. */
  function NextToken(tbl: nat, z: Zz, k: nat, j: nat): Token
    requires k <= j <= 64
  {
    if j == 64 then EndOfBlock(tbl)
    else if j - k > 15 then Token(AcTable(tbl), 0xF0, 0, 0)
    else RunToken(tbl, j - k, z[j])
  }

  /** Where coefficients go on after it. */
  function NextIndex(k: nat, j: nat): (n: nat)
    requires k <= j <= 64
    ensures n <= 64
  {
    if j == 64 then 64 else if j - k > 15 then k + 16 else j + 1
  }

  /** Nothing but zeros from k up to j, the next other coefficient. */
  predicate RunTo(z: Zz, k: nat, j: nat) {
    k <= j <= 64 && (forall i :: k <= i < j ==> z[i] == 0) && (j < 64 ==> z[j] != 0)
  }

  lemma NextRun(tbl: nat, z: Zz, k: nat, more: seq<Token>) returns (j: nat)
    requires 1 <= k < 64
    ensures RunTo(z, k, j)
    ensures AcTokens(tbl, z, k, 0) + more
         == [NextToken(tbl, z, k, j)] + (AcTokens(tbl, z, NextIndex(k, j), 0) + more)
  {
    hide AcTokens, RunToken;
    j := k;
    while j < 64 && z[j] == 0
      invariant k <= j <= 64 && forall i :: k <= i < j ==> z[i] == 0
    {
      j := j + 1;
    }
    SkipZeros(tbl, z, k, j, 0);
    AcTokensStep(tbl, z, j, j - k, more);
    if j == 64 {
      AcTokensStep(tbl, z, 64, 0, more);
    } else if j - k > 15 {
      SkipZeros(tbl, z, k + 16, j, 0);
    }
  }

  /** How a symbol tells the run and the size. */
  lemma RunSymbol(tbl: nat, z: Zz, k: nat, j: nat)
    requires RunTo(z, k, j) && k < 64 && NextToken(tbl, z, k, j).size <= 15
    ensures var t := NextToken(tbl, z, k, j);
      if j == 64 then t.symbol == 0 && BitsOf(t.extra, t.size) == []
      else if j - k > 15 then t.symbol == 0xF0 && BitsOf(t.extra, t.size) == []
      else
        && t.symbol / 16 == j - k && t.symbol % 16 == t.size == BitLength(Abs(z[j])) >= 1
        && t.extra == Extra(z[j])
  {
    hide Pow2;
    if j < 64 && j - k <= 15 {
      BitLengthBounds(Abs(z[j]));
    }
  }

  /** HUFF_EXTEND: the value of a given size, from the bits that complete it. */
  function Extend(x: nat, s: nat): int
    requires s >= 1
  {
    if x < Pow2(s - 1) then x + 1 - Pow2(s) else x
  }

  lemma ExtendExtra(v: int)
    requires v != 0
    ensures BitLength(Abs(v)) >= 1 && Extend(Extra(v), BitLength(Abs(v))) == v
  {
    BitLengthBounds(Abs(v));
    hide BitLength;
  }
}
