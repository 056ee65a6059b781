/** The statistics pass of jchuff.c: it counts the symbols that the output pass will emit. */
module HuffmanStatistics {
  import opened Powers
  import opened Coefficients
  import opened HuffmanForest
  import opened RestartIntervals
  import opened HuffmanTokens

  /** How often a symbol occurs under a table. */
  function HowMany(ts: seq<Token>, id: TableId, symbol: nat): nat {
    if ts == [] then 0
    else
      HowMany(ts[..|ts| - 1], id, symbol)
      + if ts[|ts| - 1].table == id && ts[|ts| - 1].symbol == symbol then 1 else 0
  }

  lemma HowManySnoc(ts: seq<Token>, t: Token, id: TableId, symbol: nat)
    ensures HowMany(ts + [t], id, symbol)
      == HowMany(ts, id, symbol) + if t.table == id && t.symbol == symbol then 1 else 0
  {
    assert (ts + [t])[..|ts|] == ts;
  }

  /** How many tokens there are for a table. */
  function Total(ts: seq<Token>, id: TableId): nat {
    if ts == [] then 0 else Total(ts[..|ts| - 1], id) + if ts[|ts| - 1].table == id then 1 else 0
  }

  lemma TotalSnoc(ts: seq<Token>, t: Token, id: TableId)
    ensures Total(ts + [t], id) == Total(ts, id) + if t.table == id then 1 else 0
  {
    assert (ts + [t])[..|ts|] == ts;
  }

  lemma {:induction false} HowManyOccurs(ts: seq<Token>, i: nat)
    requires i < |ts|
    ensures HowMany(ts, ts[i].table, ts[i].symbol) >= 1
  {
    if i < |ts| - 1 {
      HowManyOccurs(ts[..|ts| - 1], i);
    }
  }

  /** Within the limits for 8-bit samples; a DC difference may be twice as large. */
  predicate BlockInRange(b: Block, lastDc: int) {
    && BitLength(Abs(b[0] - lastDc)) <= MAX_COEF_BITS + 1
    && forall k :: 1 <= k < 64 ==> BitLength(Abs(At(b, k))) <= MAX_COEF_BITS
  }

  /** What can be counted: DC sizes up to 11, AC sizes up to 10. */
  predicate TokenInRange(t: Token) {
    && t.size <= MAX_COEF_BITS + 1 && t.extra < Pow2(t.size)
    && if t.table.DcTable? then t.symbol <= MAX_COEF_BITS + 1 else t.symbol < 256 && t.symbol % 16 <= MAX_COEF_BITS
  }

  /** Some component of the scan uses the table. */
  predicate FromScan(scan: Scan, id: TableId) {
    exists i :: 0 <= i < |scan.comps| && (id == DcTable(scan.comps[i].dcTbl) || id == AcTable(scan.comps[i].acTbl))
  }

  /** counts[symbol] of one table; together as many as there are tokens for it. */
  predicate CountsFor(counts: seq<nat>, ts: seq<Token>, id: TableId) {
    && |counts| == SYMBOLS && Sum(counts) == Total(ts, id)
    && forall x :: 0 <= x < SYMBOLS ==> counts[x] == HowMany(ts, id, x)
  }

  lemma CountOne(counts: seq<nat>, ts: seq<Token>, t: Token)
    requires CountsFor(counts, ts, t.table) && t.symbol < SYMBOLS
    ensures CountsFor(counts[t.symbol := counts[t.symbol] + 1], ts + [t], t.table)
  {
    hide Sum, HowMany, Total;
    TotalSnoc(ts, t, t.table);
    var more := counts[t.symbol := counts[t.symbol] + 1];
    SumUpdate(counts, more, t.symbol);
    forall x | 0 <= x < SYMBOLS
      ensures more[x] == HowMany(ts + [t], t.table, x)
    {
      HowManySnoc(ts, t, t.table, x);
    }
  }

  lemma CountOther(counts: seq<nat>, ts: seq<Token>, t: Token, id: TableId)
    requires CountsFor(counts, ts, id) && id != t.table
    ensures CountsFor(counts, ts + [t], id)
  {
    hide Sum, HowMany, Total;
    TotalSnoc(ts, t, id);
    forall x | 0 <= x < SYMBOLS
      ensures counts[x] == HowMany(ts + [t], id, x)
    {
      HowManySnoc(ts, t, id, x);
    }
  }

  class Gatherer {
    const scan: Scan
    const restartInterval: nat
    var dcCounts: seq<seq<nat>>     // by table, by symbol
    var acCounts: seq<seq<nat>>
    var lastDc: seq<int>
    var restartsToGo: nat

    ghost var counted: seq<Token>   // what has been counted
    ghost var owed: seq<Token>      // what is still to be counted of this block

    ghost predicate Valid()
      reads this`dcCounts, this`acCounts, this`counted
    {
      && |dcCounts| == |acCounts| == NUM_HUFF_TBLS
      && (forall n :: 0 <= n < NUM_HUFF_TBLS ==> CountsFor(dcCounts[n], counted, DcTable(n)))
      && (forall n :: 0 <= n < NUM_HUFF_TBLS ==> CountsFor(acCounts[n], counted, AcTable(n)))
      && (forall i :: 0 <= i < |counted| ==> TokenInRange(counted[i]) && FromScan(scan, counted[i].table))
    }

    constructor (scan: Scan, restartInterval: nat)
      ensures Valid() && fresh(this) && counted == []
      ensures this.scan == scan && this.restartInterval == restartInterval
      ensures lastDc == NoLast(scan) && restartsToGo == restartInterval
    {
      this.scan, this.restartInterval := scan, restartInterval;
      dcCounts, acCounts := seq(NUM_HUFF_TBLS, _ => seq(SYMBOLS, _ => 0)), seq(NUM_HUFF_TBLS, _ => seq(SYMBOLS, _ => 0));
      lastDc, restartsToGo, counted, owed := seq(|scan.comps|, _ => 0), restartInterval, [], [];
      new;
      hide Sum, HowMany, Total;
      NoCounts();
    }

    lemma NoCounts()
      ensures Sum(seq(SYMBOLS, _ => 0)) == 0
      ensures forall id: TableId, x: nat :: HowMany([], id, x) == 0
      ensures forall id: TableId :: Total([], id) == 0
    {
      AllZeroSum(seq(SYMBOLS, _ => 0));
    }

    /** Counts the next symbol of the block. */
    method Count(id: TableId, symbol: nat, ghost t: Token, ghost more: seq<Token>)
      requires Valid() && owed == [t] + more && t.table == id && t.symbol == symbol
      requires id.n < NUM_HUFF_TBLS && TokenInRange(t) && FromScan(scan, id)
      modifies this`dcCounts, this`acCounts, this`counted, this`owed
      ensures Valid() && owed == more && counted == old(counted) + [t]
    {
      hide CountsFor, FromScan;
      ghost var was := counted;
      CountsSized(id);
      if id.DcTable? {
        CountOne(dcCounts[id.n], was, t);
        dcCounts := dcCounts[id.n := dcCounts[id.n][symbol := dcCounts[id.n][symbol] + 1]];
      } else {
        CountOne(acCounts[id.n], was, t);
        acCounts := acCounts[id.n := acCounts[id.n][symbol := acCounts[id.n][symbol] + 1]];
      }
      counted, owed := counted + [t], more;
      CountOthers(was, t, old(dcCounts), old(acCounts));
    }

    lemma CountsSized(id: TableId)
      requires Valid() && id.n < NUM_HUFF_TBLS
      ensures |if id.DcTable? then dcCounts[id.n] else acCounts[id.n]| == SYMBOLS
    {
    }

    lemma CountOthers(was: seq<Token>, t: Token, dc: seq<seq<nat>>, ac: seq<seq<nat>>)
      requires |dc| == |ac| == NUM_HUFF_TBLS
      requires forall n :: 0 <= n < NUM_HUFF_TBLS ==>
        CountsFor(dc[n], was, DcTable(n)) && CountsFor(ac[n], was, AcTable(n))
      ensures forall n :: 0 <= n < NUM_HUFF_TBLS && DcTable(n) != t.table ==> CountsFor(dc[n], was + [t], DcTable(n))
      ensures forall n :: 0 <= n < NUM_HUFF_TBLS && AcTable(n) != t.table ==> CountsFor(ac[n], was + [t], AcTable(n))
    {
      hide CountsFor;
      forall n | 0 <= n < NUM_HUFF_TBLS && DcTable(n) != t.table
        ensures CountsFor(dc[n], was + [t], DcTable(n))
      {
        CountOther(dc[n], was, t, DcTable(n));
      }
      forall n | 0 <= n < NUM_HUFF_TBLS && AcTable(n) != t.table
        ensures CountsFor(ac[n], was + [t], AcTable(n))
      {
        CountOther(ac[n], was, t, AcTable(n));
      }
    }

    lemma NoBits()
      ensures Pow2(0) == 1
    {
    }

    lemma TablesFromScan(c: Component)
      requires scan.Ok() && c in scan.comps
      ensures FromScan(scan, DcTable(c.dcTbl)) && FromScan(scan, AcTable(c.acTbl))
      ensures c.dcTbl < NUM_HUFF_TBLS && c.acTbl < NUM_HUFF_TBLS
    {
      var i :| 0 <= i < |scan.comps| && scan.comps[i] == c;
    }

    /** The number of bits of a magnitude. */
    method CountBits(v: nat) returns (nbits: nat)
      ensures nbits == BitLength(v)
    {
      hide BitLength;
      BitLengthOf(v);
      nbits := 0;
      var temp := v;
      while temp != 0
        invariant nbits + BitLength(temp) == BitLength(v)
      {
        BitLengthOf(temp);
        nbits := nbits + 1;
        temp := temp / 2;
        BitLengthOf(temp);
      }
      BitLengthOf(0);
    }

    lemma BitLengthOf(v: nat)
      ensures BitLength(v) == if v == 0 then 0 else 1 + BitLength(v / 2)
    {
    }

    /** Counts the symbols of one block; fails on a coefficient that is out of range. */
    method HtestOneBlock(b: Block, last: int, c: Component, ghost more: seq<Token>) returns (ok: bool)
      requires Valid() && owed == BlockTokens(c, last, b) + more && scan.Ok() && c in scan.comps
      modifies this`dcCounts, this`acCounts, this`counted, this`owed
      ensures ok <==> BlockInRange(b, last)
      ensures ok ==> Valid() && owed == more && counted == old(counted) + BlockTokens(c, last, b)
    {
      hide Valid, AcTokens, BitLength, Extra, At, FromScan, Pow2;
      NoBits();
      TablesFromScan(c);
      ghost var z, all := InZigzag(b), old(counted) + owed;
      var diff := b[0] - last;
      var nbits := CountBits(Abs(diff));
      if nbits > MAX_COEF_BITS + 1 {
        return false;
      }
      assert owed == [DcToken(c.dcTbl, diff)] + (AcTokens(c.acTbl, z, 1, 0) + more);
      Count(DcTable(c.dcTbl), nbits, DcToken(c.dcTbl, diff), AcTokens(c.acTbl, z, 1, 0) + more);
      var r := 0;
      for k := 1 to 64
        invariant Valid() && owed == AcTokens(c.acTbl, z, k, r) + more && counted + owed == all
        invariant forall i :: 1 <= i < k ==> BitLength(Abs(At(b, i))) <= MAX_COEF_BITS
      {
        ok, r := CountCoefficient(At(b, k), k, r, c.acTbl, z, more);
        if !ok {
          return;
        }
      }
      AcTokensStep(c.acTbl, z, 64, r, more);
      if r > 0 {
        Count(AcTable(c.acTbl), 0, EndOfBlock(c.acTbl), more);
      }
      ok := true;
      SameRest(counted, more, old(counted), BlockTokens(c, last, b));
    }

    lemma SameRest<T>(a: seq<T>, more: seq<T>, b: seq<T>, c: seq<T>)
      requires a + more == b + (c + more)
      ensures a == b + c
    {
      assert b + (c + more) == (b + c) + more;
      assert |a| == |b + c|;
      assert (a + more)[..|a|] == a && ((b + c) + more)[..|a|] == b + c;
    }

    /** One step of the coefficient loop. */
    method CountCoefficient(temp: Coef, k: nat, r0: nat, tbl: nat, ghost z: Zz, ghost more: seq<Token>)
        returns (ok: bool, r: nat)
      requires 1 <= k < 64 && z[k] == temp && tbl < NUM_HUFF_TBLS && FromScan(scan, AcTable(tbl))
      requires Valid() && owed == AcTokens(tbl, z, k, r0) + more
      modifies this`dcCounts, this`acCounts, this`counted, this`owed
      ensures ok <==> BitLength(Abs(temp)) <= MAX_COEF_BITS
      ensures ok ==> Valid() && owed == AcTokens(tbl, z, k + 1, r) + more
      ensures ok ==> counted + owed == old(counted + owed)
    {
      hide Valid, AcTokens, BitLength, Extra, FromScan, Pow2;
      NoBits();
      r, ok := r0, true;
      ghost var all := counted + owed;
      AcTokensStep(tbl, z, k, r, more);
      BitLengthOf(Abs(temp));
      if temp == 0 {
        r := r + 1;
      } else {
        while r > 15
          invariant Valid() && owed == AcTokens(tbl, z, k, r) + more && counted + owed == all
        {
          AcTokensStep(tbl, z, k, r, more);
          Count(AcTable(tbl), 0xF0, Token(AcTable(tbl), 0xF0, 0, 0), AcTokens(tbl, z, k, r - 16) + more);
          r := r - 16;
        }
        AcTokensStep(tbl, z, k, r, more);
        var nbits := CountBits(Abs(temp));
        if nbits > MAX_COEF_BITS {
          return false, r;
        }
        Count(AcTable(tbl), 16 * r + nbits, RunToken(tbl, r, temp), AcTokens(tbl, z, k + 1, 0) + more);
        r := 0;
      }
    }

    /** Trial-encodes one MCU. */
    method EncodeMcuGather(mcu: seq<Block>) returns (ok: bool)
      requires Valid() && scan.Ok() && |lastDc| == |scan.comps| && |mcu| == |scan.membership|
      modifies this
      ensures ok <==> McuInRange(scan, old(RunLast(scan, restartInterval, lastDc, restartsToGo)), mcu, 0)
      ensures |lastDc| == |scan.comps|
      ensures ok ==> Valid() && var from := old(RunLast(scan, restartInterval, lastDc, restartsToGo));
        && counted == old(counted) + McuTokens(scan, from, mcu, 0)
        && lastDc == McuLast(scan, from, mcu, 0)
        && restartsToGo == if restartInterval == 0 then old(restartsToGo) else RunTogo(restartInterval, old(restartsToGo))
    {
      hide Valid, McuTokens, McuLast, BlockTokens, BlockInRange, McuInRange;
      if restartInterval != 0 {
        if restartsToGo == 0 {
          lastDc := seq(|scan.comps|, _ => 0);
          restartsToGo := restartInterval;
        }
        restartsToGo := restartsToGo - 1;
      }
      ghost var from, was := lastDc, counted;
      ghost var tokens := McuTokens(scan, from, mcu, 0);
      owed := tokens + [];
      for blkn := 0 to |mcu|
        invariant |lastDc| == |scan.comps| && Valid()
        invariant restartsToGo == if restartInterval == 0 then old(restartsToGo)
          else RunTogo(restartInterval, old(restartsToGo))
        invariant owed == McuTokens(scan, lastDc, mcu, blkn) + [] && counted + owed == was + tokens
        invariant McuLast(scan, lastDc, mcu, blkn) == McuLast(scan, from, mcu, 0)
        invariant McuInRange(scan, lastDc, mcu, blkn) == McuInRange(scan, from, mcu, 0)
      {
        var ci := scan.membership[blkn];
        var c := scan.comps[ci];
        McuTokensStep(scan, lastDc, mcu, blkn, []);
        McuRangeStep(scan, lastDc, mcu, blkn);
        ghost var left := McuTokens(scan, lastDc[ci := mcu[blkn][0]], mcu, blkn + 1) + [];
        ghost var before := counted;
        ok := HtestOneBlock(mcu[blkn], lastDc[ci], c, left);
        if !ok {
          return;
        }
        assert before + (BlockTokens(c, lastDc[ci], mcu[blkn]) + left) == counted + owed;
        lastDc := lastDc[ci := mcu[blkn][0]];
      }
      McuTokensStep(scan, lastDc, mcu, |mcu|, []);
      McuRangeStep(scan, lastDc, mcu, |mcu|);
      ok := true;
    }
  }

  predicate McuInRange(scan: Scan, last: seq<int>, mcu: seq<Block>, n: nat)
    requires scan.Ok() && |last| == |scan.comps| && n <= |mcu| == |scan.membership|
    decreases |mcu| - n
  {
    n == |mcu| ||
    var ci := scan.membership[n];
    BlockInRange(mcu[n], last[ci]) && McuInRange(scan, last[ci := mcu[n][0]], mcu, n + 1)
  }

  lemma McuRangeStep(scan: Scan, last: seq<int>, mcu: seq<Block>, n: nat)
    requires scan.Ok() && |last| == |scan.comps| && n <= |mcu| == |scan.membership|
    ensures n == |mcu| ==> McuInRange(scan, last, mcu, n)
    ensures n < |mcu| ==>
      var ci := scan.membership[n];
      McuInRange(scan, last, mcu, n) <==>
        BlockInRange(mcu[n], last[ci]) && McuInRange(scan, last[ci := mcu[n][0]], mcu, n + 1)
  {
    hide BlockInRange;
  }

  /** Every MCU of the scan is in range, with the predictions reset at restarts. */
  predicate RunInRange(scan: Scan, restartInterval: nat, last: seq<int>, togo: nat, mcus: seq<seq<Block>>)
    requires scan.Ok() && |last| == |scan.comps| && McusOk(scan, mcus)
    decreases |mcus|
  {
    mcus == [] ||
    var from := RunLast(scan, restartInterval, last, togo);
    && McuInRange(scan, from, mcus[0], 0)
    && RunInRange(scan, restartInterval, McuLast(scan, from, mcus[0], 0), RunTogo(restartInterval, togo), mcus[1..])
  }

  lemma RunRangeStep(scan: Scan, restartInterval: nat, last: seq<int>, togo: nat, mcus: seq<seq<Block>>, i: nat)
    requires scan.Ok() && |last| == |scan.comps| && McusOk(scan, mcus) && i <= |mcus|
    ensures i == |mcus| ==> RunInRange(scan, restartInterval, last, togo, mcus[i..])
    ensures i < |mcus| ==>
      var from := RunLast(scan, restartInterval, last, togo);
      RunInRange(scan, restartInterval, last, togo, mcus[i..]) <==>
        && McuInRange(scan, from, mcus[i], 0)
        && RunInRange(scan, restartInterval, McuLast(scan, from, mcus[i], 0), RunTogo(restartInterval, togo),
          mcus[i + 1..])
  {
    hide McuInRange, McuLast, RunLast, RunTogo;
    if i < |mcus| {
      assert mcus[i..][1..] == mcus[i + 1..];
    }
  }

  /** The statistics pass over a whole scan: it counts just the symbols that the output pass emits. */
  method GatherScan(scan: Scan, restartInterval: nat, mcus: seq<seq<Block>>) returns (ok: bool, g: Gatherer)
    requires scan.Ok() && McusOk(scan, mcus)
    ensures fresh(g)
    ensures ok <==> RunInRange(scan, restartInterval, NoLast(scan), restartInterval, mcus)
    ensures ok ==> g.Valid() && g.scan == scan
    ensures ok ==> g.counted == RunTokens(scan, restartInterval, NoLast(scan), restartInterval, mcus)
  {
    hide Gatherer.Valid, RunTokens, RunInRange, McuInRange, McuTokens, McuLast, RunLast, RunTogo;
    g := new Gatherer(scan, restartInterval);
    ghost var tokens, none := RunTokens(scan, restartInterval, NoLast(scan), restartInterval, mcus), NoLast(scan);
    assert mcus[0..] == mcus && [] + tokens == tokens;
    for i := 0 to |mcus|
      invariant fresh(g) && g.Valid() && g.scan == scan && g.restartInterval == restartInterval
      invariant |g.lastDc| == |scan.comps| && (restartInterval == 0 ==> g.restartsToGo == 0)
      invariant g.counted + RunTokens(scan, restartInterval, g.lastDc, g.restartsToGo, mcus[i..]) == tokens
      invariant RunInRange(scan, restartInterval, g.lastDc, g.restartsToGo, mcus[i..])
             == RunInRange(scan, restartInterval, none, restartInterval, mcus)
    {
      ghost var from, was, togo := RunLast(scan, restartInterval, g.lastDc, g.restartsToGo), g.counted, g.restartsToGo;
      RunTokensStep(scan, restartInterval, g.lastDc, togo, mcus, i);
      RunRangeStep(scan, restartInterval, g.lastDc, togo, mcus, i);
      ok := g.EncodeMcuGather(mcus[i]);
      if !ok {
        return;
      }
      NoTogo(restartInterval);
      RegroupThree(was, McuTokens(scan, from, mcus[i], 0),
              RunTokens(scan, restartInterval, g.lastDc, g.restartsToGo, mcus[i + 1..]));
    }
    RunTokensStep(scan, restartInterval, g.lastDc, g.restartsToGo, mcus, |mcus|);
    RunRangeStep(scan, restartInterval, g.lastDc, g.restartsToGo, mcus, |mcus|);
    ok := true;
  }

  lemma NoTogo(restartInterval: nat)
    ensures restartInterval == 0 ==> RunTogo(restartInterval, 0) == 0
  {
  }

  lemma RegroupThree<T>(a: seq<T>, b: seq<T>, c: seq<T>)
    ensures (a + b) + c == a + (b + c)
  {
  }
}
