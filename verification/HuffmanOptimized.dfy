/** Two-pass Huffman coding: optimal tables from the statistics of a scan, then the scan coded with them. */
module HuffmanOptimized {
  import opened Powers
  import opened ByteStream
  import opened Coefficients
  import opened HuffmanForest
  import opened HuffmanCode
  import opened HuffmanTables
  import opened OptimalTable
  import opened RestartIntervals
  import opened HuffmanTokens
  import opened HuffmanStatistics
  import opened HuffmanDecoder
  import opened HuffmanScans

  predicate Mentions(ts: seq<Token>, id: TableId) {
    exists i :: 0 <= i < |ts| && ts[i].table == id
  }

  lemma MentionsSum(a: seq<Token>, b: seq<Token>, id: TableId)
    requires Mentions(a, id) || Mentions(b, id)
    ensures Mentions(a + b, id)
  {
    var ts := a + b;
    if Mentions(a, id) {
      var i :| 0 <= i < |a| && a[i].table == id;
      assert ts[i].table == id;
    } else {
      var i :| 0 <= i < |b| && b[i].table == id;
      assert ts[|a| + i].table == id;
    }
  }

  lemma {:induction false} AcMentions(tbl: nat, z: Zz, k: nat, r: nat)
    requires k <= 64 && (k < 64 || r > 0)
    ensures Mentions(AcTokens(tbl, z, k, r), AcTable(tbl))
    decreases 64 - k
  {
    if k == 64 {
      assert AcTokens(tbl, z, k, r)[0].table == AcTable(tbl);
    } else if z[k] == 0 {
      AcMentions(tbl, z, k + 1, r + 1);
    } else {
      var runs, token := LongRuns(tbl, r / 16), [RunToken(tbl, r % 16, z[k])];
      assert token[0].table == AcTable(tbl);
      MentionsSum(runs, token, AcTable(tbl));
      MentionsSum(runs + token, AcTokens(tbl, z, k + 1, 0), AcTable(tbl));
    }
  }

  lemma BlockMentions(c: Component, last: int, b: Block)
    ensures Mentions(BlockTokens(c, last, b), DcTable(c.dcTbl)) && Mentions(BlockTokens(c, last, b), AcTable(c.acTbl))
  {
    hide AcTokens;
    var dc, ac := [DcToken(c.dcTbl, b[0] - last)], AcTokens(c.acTbl, InZigzag(b), 1, 0);
    assert dc[0].table == DcTable(c.dcTbl);
    MentionsSum(dc, ac, DcTable(c.dcTbl));
    AcMentions(c.acTbl, InZigzag(b), 1, 0);
    MentionsSum(dc, ac, AcTable(c.acTbl));
  }

  lemma {:induction false} McuMentions(scan: Scan, last: seq<int>, mcu: seq<Block>, n: nat, j: nat)
    requires scan.Ok() && |last| == |scan.comps| && n <= j < |mcu| == |scan.membership|
    ensures var c, ts := scan.comps[scan.membership[j]], McuTokens(scan, last, mcu, n);
      Mentions(ts, DcTable(c.dcTbl)) && Mentions(ts, AcTable(c.acTbl))
    decreases j - n
  {
    hide BlockTokens, Mentions;
    var ci := scan.membership[n];
    var a, b := BlockTokens(scan.comps[ci], last[ci], mcu[n]), McuTokens(scan, last[ci := mcu[n][0]], mcu, n + 1);
    var c := scan.comps[scan.membership[j]];
    if n == j {
      BlockMentions(c, last[ci], mcu[n]);
    } else {
      McuMentions(scan, last[ci := mcu[n][0]], mcu, n + 1, j);
    }
    MentionsSum(a, b, DcTable(c.dcTbl));
    MentionsSum(a, b, AcTable(c.acTbl));
  }

  /** Every component has a block in each MCU. */
  predicate AllPresent(scan: Scan) {
    forall i :: 0 <= i < |scan.comps| ==> i in scan.membership
  }

  lemma RunMentions(scan: Scan, restartInterval: nat, mcus: seq<seq<Block>>, i: nat)
    requires scan.Ok() && McusOk(scan, mcus) && mcus != [] && AllPresent(scan) && i < |scan.comps|
    ensures var c, ts := scan.comps[i], RunTokens(scan, restartInterval, NoLast(scan), restartInterval, mcus);
      Mentions(ts, DcTable(c.dcTbl)) && Mentions(ts, AcTable(c.acTbl))
  {
    hide McuTokens, Mentions, RunLast, RunTogo;
    var from := RunLast(scan, restartInterval, NoLast(scan), restartInterval);
    assert i in scan.membership;
    var j :| 0 <= j < |scan.membership| && scan.membership[j] == i;
    McuMentions(scan, from, mcus[0], 0, j);
    var a := McuTokens(scan, from, mcus[0], 0);
    var b := RunTokens(scan, restartInterval, McuLast(scan, from, mcus[0], 0),
      RunTogo(restartInterval, restartInterval), mcus[1..]);
    MentionsSum(a, b, DcTable(scan.comps[i].dcTbl));
    MentionsSum(a, b, AcTable(scan.comps[i].acTbl));
  }

  // ---- the tables ----

  lemma {:induction false} UsedLength(s: seq<nat>)
    ensures Used(s) <= |s|
  {
    if s != [] {
      UsedLength(s[..|s| - 1]);
    }
  }

  /** Two symbols unused. */
  lemma UsedWithoutTwo(s: seq<nat>, a: nat, b: nat)
    requires a < b < |s| && s[a] == 0 && s[b] == 0
    ensures Used(s) <= |s| - 2
  {
    var t, u := s[a := 1], s[a := 1][b := 1];
    UsedUpdate(s, t, a);
    UsedUpdate(t, u, b);
    UsedLength(u);
  }

  lemma UsedAtLeast(s: seq<nat>, x: nat)
    requires x < |s| && s[x] > 0
    ensures Used(s) >= 1
  {
    var t := s[x := 0];
    UsedUpdate(s, t, x);
  }

  /** The counts of a scan within range are such as jpeg_gen_optimal_table expects. */
  lemma CountsUsable(counts: seq<nat>, ts: seq<Token>, id: TableId)
    requires CountsFor(counts, ts, id) && Mentions(ts, id)
    requires forall i :: 0 <= i < |ts| ==> TokenInRange(ts[i])
    ensures 1 <= Used(counts[..256]) <= 254 && Sum(counts[..256]) <= Total(ts, id)
    ensures forall x :: MaxSymbol(id.DcTable?) < x < 256 ==> counts[x] == 0
  {
    hide Used, Sum, HowMany, Total;
    forall x | 0 <= x < 256 && (if id.DcTable? then x > MAX_COEF_BITS + 1 else x % 16 > MAX_COEF_BITS)
      ensures counts[x] == 0
    {
      NeverCounted(ts, id, x);
    }
    var i :| 0 <= i < |ts| && ts[i].table == id;
    HowManyOccurs(ts, i);
    UsedAtLeast(counts[..256], ts[i].symbol);
    UsedWithoutTwo(counts[..256], 14, 15);
    SumOfPrefix(counts, 256);
  }

  lemma {:induction false} NeverCounted(ts: seq<Token>, id: TableId, x: nat)
    requires forall i :: 0 <= i < |ts| ==> TokenInRange(ts[i])
    requires if id.DcTable? then x > MAX_COEF_BITS + 1 else x % 16 > MAX_COEF_BITS
    ensures HowMany(ts, id, x) == 0
  {
    hide Pow2;
    if ts != [] {
      NeverCounted(ts[..|ts| - 1], id, x);
    }
  }

  lemma {:induction false} SumOfPrefix(s: seq<nat>, n: nat)
    requires n <= |s|
    ensures Sum(s[..n]) <= Sum(s)
  {
    if n == |s| {
      assert s[..n] == s;
    } else {
      SumOfPrefix(s[..|s| - 1], n);
      assert s[..|s| - 1][..n] == s[..n];
    }
  }

  /** One optimal table; it can only fail when there are very many symbols. */
  method OptimizeTable(counts: seq<nat>, ghost ts: seq<Token>, ghost id: TableId) returns (ok: bool, t: Table)
    requires CountsFor(counts, ts, id) && Total(ts, id) < LARGE && Mentions(ts, id)
    requires forall i :: 0 <= i < |ts| ==> TokenInRange(ts[i])
    ensures Total(ts, id) + 1 < FIB_35 ==> ok
    ensures ok ==> TableFor(counts[..256], t)
  {
    hide Used, Sum, HowMany, Total, TableFor, TokenInRange;
    CountsUsable(counts, ts, id);
    var freq := new nat[SYMBOLS](i requires 0 <= i < SYMBOLS => counts[i]);
    var huffval := new UInt8[256](_ => 0);
    assert freq[..256] == counts[..256];
    ghost var sizes;
    ok, t, sizes := GenOptimalTable(freq, huffval);
  }

  const NO_TABLE := Table([], [])

  /** A table made from the scan's counts. */
  ghost predicate Made(ts: seq<Token>, id: TableId, t: Table) {
    exists counts :: CountsFor(counts, ts, id) && TableFor(counts[..256], t)
  }

  lemma MadeFrom(ts: seq<Token>, id: TableId, t: Table) returns (counts: seq<nat>)
    requires Made(ts, id, t)
    ensures |counts| == SYMBOLS && CountsFor(counts, ts, id) && TableFor(counts[..256], t)
  {
    hide TableFor, HowMany, Sum;
    counts :| CountsFor(counts, ts, id) && TableFor(counts[..256], t);
  }

  /** No table of the scan has as many as n symbols in the tokens. */
  ghost predicate FewerThan(ts: seq<Token>, scan: Scan, n: nat) {
    forall i :: 0 <= i < |scan.comps| ==>
      Total(ts, DcTable(scan.comps[i].dcTbl)) < n && Total(ts, AcTable(scan.comps[i].acTbl)) < n
  }

  /** The whole scan has been counted, and uses all its tables. */
  ghost predicate Gathered(g: Gatherer, scan: Scan)
    reads g
  {
    && g.Valid() && g.scan == scan && scan.Ok() && FewerThan(g.counted, scan, LARGE)
    && forall i :: 0 <= i < |scan.comps| ==>
         Mentions(g.counted, DcTable(scan.comps[i].dcTbl)) && Mentions(g.counted, AcTable(scan.comps[i].acTbl))
  }

  /** One table of the pass. */
  method MakeTable(g: Gatherer, id: TableId) returns (ok: bool, t: Table)
    requires g.Valid() && id.n < NUM_HUFF_TBLS && Total(g.counted, id) < LARGE && Mentions(g.counted, id)
    ensures Total(g.counted, id) + 1 < FIB_35 ==> ok
    ensures ok ==> Made(g.counted, id, t)
  {
    hide CountsFor, TableFor, TokenInRange, FromScan, Total;
    var counts := if id.DcTable? then g.dcCounts[id.n] else g.acCounts[id.n];
    assert CountsFor(counts, g.counted, id);
    ok, t := OptimizeTable(counts, g.counted, id);
  }

  /** finish_pass_gather: each table that a component uses is made once. */
  method FinishPassGather(g: Gatherer, scan: Scan) returns (ok: bool, tables: Tables)
    requires Gathered(g, scan)
    ensures tables.Sized()
    ensures FewerThan(g.counted, scan, FIB_35 - 1) ==> ok
    ensures ok ==> forall i :: 0 <= i < |scan.comps| ==>
      var c := scan.comps[i];
      Made(g.counted, DcTable(c.dcTbl), tables.dc[c.dcTbl]) && Made(g.counted, AcTable(c.acTbl), tables.ac[c.acTbl])
  {
    hide Gatherer.Valid, Made, Mentions, Total;
    var didDc, didAc := seq(NUM_HUFF_TBLS, _ => false), seq(NUM_HUFF_TBLS, _ => false);
    tables := Tables(seq(NUM_HUFF_TBLS, _ => NO_TABLE), seq(NUM_HUFF_TBLS, _ => NO_TABLE));
    for ci := 0 to |scan.comps|
      invariant tables.Sized() && |didDc| == |didAc| == NUM_HUFF_TBLS
      invariant forall n :: 0 <= n < NUM_HUFF_TBLS && didDc[n] ==> Made(g.counted, DcTable(n), tables.dc[n])
      invariant forall n :: 0 <= n < NUM_HUFF_TBLS && didAc[n] ==> Made(g.counted, AcTable(n), tables.ac[n])
      invariant forall i :: 0 <= i < ci ==> didDc[scan.comps[i].dcTbl] && didAc[scan.comps[i].acTbl]
    {
      var dctbl, actbl := scan.comps[ci].dcTbl, scan.comps[ci].acTbl;
      var t;
      if !didDc[dctbl] {
        ok, t := MakeTable(g, DcTable(dctbl));
        if !ok {
          return;
        }
        tables := tables.(dc := tables.dc[dctbl := t]);
        didDc := didDc[dctbl := true];
      }
      if !didAc[actbl] {
        ok, t := MakeTable(g, AcTable(actbl));
        if !ok {
          return;
        }
        tables := tables.(ac := tables.ac[actbl := t]);
        didAc := didAc[actbl := true];
      }
    }
    ok := true;
  }

  /** What a made table gives: both sides accept it, and every counted symbol has a code. */
  predicate Served(ts: seq<Token>, id: TableId, t: Table, e: EncoderTable, d: DecoderTable) {
    && e.For(t) && d.For(t) && Fits(t.Sizes())
    && forall i :: 0 <= i < |ts| && ts[i].table == id ==> Covered(e, ts[i].symbol)
  }

  method DeriveTable(t: Table, ghost ts: seq<Token>, id: TableId) returns (e: EncoderTable, d: DecoderTable)
    requires Made(ts, id, t) && Mentions(ts, id)
    requires forall i :: 0 <= i < |ts| ==> TokenInRange(ts[i])
    ensures Served(ts, id, t, e, d)
  {
    hide CountsFor, TableFor, TokenInRange, Mentions, Covered, EncoderTable.For, DecoderTable.For, Fits, Expand,
      Acceptable, Decodable;
    ghost var counts := MadeFrom(ts, id, t);
    CountsUsable(counts, ts, id);
    TableAcceptable(counts[..256], t, id.DcTable?);
    AcceptableDecodable(t, id.DcTable?);
    AcceptableFits(t, id.DcTable?);
    var okE, okD;
    okE, e := MakeEncoderTable(id.DcTable?, t);
    okD, d := MakeDecoderTable(id.DcTable?, t);
    forall i | 0 <= i < |ts| && ts[i].table == id
      ensures Covered(e, ts[i].symbol)
    {
      CountedSymbol(counts, ts, t, id, i);
      SymbolCovered(e, t, ts[i].symbol);
    }
  }

  lemma AcceptableFits(t: Table, isDc: bool)
    requires Acceptable(t, isDc)
    ensures t.WellFormed() && Lengths(t.Sizes()) && Fits(t.Sizes())
  {
    hide Expand, Fits;
    SizesLengths(t);
  }

  lemma CountedSymbol(counts: seq<nat>, ts: seq<Token>, t: Table, id: TableId, i: nat)
    requires CountsFor(counts, ts, id) && |counts| >= 256 && TableFor(counts[..256], t)
    requires i < |ts| && ts[i].table == id && TokenInRange(ts[i])
    ensures t.WellFormed() && |t.Sizes()| <= 256 && ts[i].symbol < 256 && ts[i].symbol in t.huffval[..|t.Sizes()|]
  {
    hide HowMany, Sum, Used, Expand, Units, Pow2;
    HowManyOccurs(ts, i);
    assert counts[..256][ts[i].symbol] > 0;
  }

  lemma SymbolCovered(e: EncoderTable, t: Table, x: nat)
    requires e.For(t) && Fits(t.Sizes()) && x < 256 && x in t.huffval[..|t.Sizes()|]
    ensures Covered(e, x)
  {
    hide Pow2, Code, Fits, Expand;
    var symbols := t.huffval[..|t.Sizes()|];
    var i :| 0 <= i < |symbols| && symbols[i] == x;
    CodeBound(t.Sizes(), i);
    assert Codes(t.Sizes())[i] == Code(t.Sizes(), i);
  }

  /** start_pass on both sides: tables are derived for each component. */
  method DeriveTables(scan: Scan, tables: Tables, ghost ts: seq<Token>) returns (coders: Coders, decoders: Decoders)
    requires scan.Ok() && tables.Sized()
    requires forall i :: 0 <= i < |ts| ==> TokenInRange(ts[i])
    requires forall i :: 0 <= i < |scan.comps| ==>
      var c := scan.comps[i];
      && Made(ts, DcTable(c.dcTbl), tables.dc[c.dcTbl]) && Made(ts, AcTable(c.acTbl), tables.ac[c.acTbl])
      && Mentions(ts, DcTable(c.dcTbl)) && Mentions(ts, AcTable(c.acTbl))
    ensures coders.Sized() && decoders.Sized()
    ensures forall i :: 0 <= i < |scan.comps| ==>
      var c := scan.comps[i];
      && Served(ts, DcTable(c.dcTbl), tables.dc[c.dcTbl], coders.dc[c.dcTbl], decoders.dc[c.dcTbl])
      && Served(ts, AcTable(c.acTbl), tables.ac[c.acTbl], coders.ac[c.acTbl], decoders.ac[c.acTbl])
  {
    hide Made, Mentions, Served, TokenInRange;
    var noE, noD := EncoderTable([], []), DecoderTable([], [], [], []);
    coders := Coders(seq(NUM_HUFF_TBLS, _ => noE), seq(NUM_HUFF_TBLS, _ => noE));
    decoders := Decoders(seq(NUM_HUFF_TBLS, _ => noD), seq(NUM_HUFF_TBLS, _ => noD));
    for ci := 0 to |scan.comps|
      invariant coders.Sized() && decoders.Sized()
      invariant forall i :: 0 <= i < ci ==>
        var c := scan.comps[i];
        && Served(ts, DcTable(c.dcTbl), tables.dc[c.dcTbl], coders.dc[c.dcTbl], decoders.dc[c.dcTbl])
        && Served(ts, AcTable(c.acTbl), tables.ac[c.acTbl], coders.ac[c.acTbl], decoders.ac[c.acTbl])
    {
      var dctbl, actbl := scan.comps[ci].dcTbl, scan.comps[ci].acTbl;
      var e, d := DeriveTable(tables.dc[dctbl], ts, DcTable(dctbl));
      coders, decoders := coders.(dc := coders.dc[dctbl := e]), decoders.(dc := decoders.dc[dctbl := d]);
      e, d := DeriveTable(tables.ac[actbl], ts, AcTable(actbl));
      coders, decoders := coders.(ac := coders.ac[actbl := e]), decoders.(ac := decoders.ac[actbl := d]);
    }
  }

  lemma AllServed(scan: Scan, tables: Tables, coders: Coders, decoders: Decoders, ts: seq<Token>)
    requires scan.Ok() && tables.Sized() && coders.Sized() && decoders.Sized()
    requires forall i :: 0 <= i < |ts| ==> TokenInRange(ts[i]) && FromScan(scan, ts[i].table)
    requires forall i :: 0 <= i < |scan.comps| ==>
      var c := scan.comps[i];
      && Served(ts, DcTable(c.dcTbl), tables.dc[c.dcTbl], coders.dc[c.dcTbl], decoders.dc[c.dcTbl])
      && Served(ts, AcTable(c.acTbl), tables.ac[c.acTbl], coders.ac[c.acTbl], decoders.ac[c.acTbl])
    ensures AllCovered(coders, ts) && AllShared(scan, coders, decoders, tables)
  {
    hide Covered, EncoderTable.For, DecoderTable.For, Fits, Expand, Pow2;
    forall i | 0 <= i < |ts|
      ensures TokenCovered(coders, ts[i])
    {
      assert FromScan(scan, ts[i].table);
      var j :| 0 <= j < |scan.comps|
        && (ts[i].table == DcTable(scan.comps[j].dcTbl) || ts[i].table == AcTable(scan.comps[j].acTbl));
    }
  }

  /**
    Two-pass coding of a scan: once the statistics have made the tables, every symbol of the output pass has a code, and
    the scan comes back as it was. It fails when a coefficient is out of range, and otherwise only if the symbols of
    some table are so many that a code length over MAX_CLEN is possible.
  */
  method OptimizedRoundTrip(scan: Scan, restartInterval: nat, mcus: seq<seq<Block>>, marker: byte)
      returns (ok: bool, out: seq<seq<Block>>)
    requires scan.Ok() && McusOk(scan, mcus) && mcus != [] && AllPresent(scan) && 0 < marker < 0xFF
    requires FewerThan(RunTokens(scan, restartInterval, NoLast(scan), restartInterval, mcus), scan, LARGE)
    ensures ok ==> RunInRange(scan, restartInterval, NoLast(scan), restartInterval, mcus) && out == mcus
    ensures RunInRange(scan, restartInterval, NoLast(scan), restartInterval, mcus) && !ok ==>
      !FewerThan(RunTokens(scan, restartInterval, NoLast(scan), restartInterval, mcus), scan, FIB_35 - 1)
  {
    hide RunTokens, RunInRange, Made, Mentions, Served, TokenInRange, FromScan, AllCovered, AllShared, CountsFor, Total;
    var g;
    ok, g := GatherScan(scan, restartInterval, mcus);
    out := [];
    if !ok {
      return;
    }
    ghost var ts := g.counted;
    forall i | 0 <= i < |scan.comps|
      ensures Mentions(ts, DcTable(scan.comps[i].dcTbl)) && Mentions(ts, AcTable(scan.comps[i].acTbl))
    {
      RunMentions(scan, restartInterval, mcus, i);
    }
    var tables;
    ok, tables := FinishPassGather(g, scan);
    if !ok {
      return;
    }
    var coders, decoders := DeriveTables(scan, tables, ts);
    AllServed(scan, tables, coders, decoders, ts);
    out := HuffmanRoundTrip(scan, coders, decoders, tables, restartInterval, mcus, marker);
  }
}
