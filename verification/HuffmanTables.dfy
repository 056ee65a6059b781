/** Derived Huffman tables: jpeg_make_c_derived_tbl of jchuff.c and jpeg_make_d_derived_tbl of jdhuff.c. */
module HuffmanTables {
  import opened Powers
  import opened HuffmanCode

  /** Figure C.1: the length of each code, in order, closed by a zero; fails when there are more than 256. */
  method GenerateSizes(t: Table, huffsize: array<nat>) returns (ok: bool, p: nat)
    requires t.WellFormed() && huffsize.Length == 257
    modifies huffsize
    ensures ok <==> |t.Sizes()| <= 256
    ensures ok ==> p == |t.Sizes()| && huffsize[..p] == t.Sizes() && huffsize[p] == 0
  {
    hide Expand;
    ok, p := true, 0;
    ExpandStep(t.bits, 0);
    for l := 1 to 17
      invariant p <= 256 && huffsize[..p] == Expand(t.bits, l - 1)
    {
      ExpandStep(t.bits, l);
      ExpandPrefix(t.bits, l, 16);
      var i := t.bits[l];
      if p + i > 256 {
        return false, p;
      }
      p := Fill(huffsize, p, i, l);
    }
    huffsize[p] := 0;
  }

  method Fill(huffsize: array<nat>, p0: nat, n: nat, l: nat) returns (p: nat)
    requires p0 + n <= huffsize.Length
    modifies huffsize
    ensures p == p0 + n && huffsize[..p] == old(huffsize[..p0]) + seq(n, _ => l)
  {
    p := p0;
    var i := n;
    while i > 0
      invariant p + i == p0 + n
      invariant huffsize[..p] == old(huffsize[..p0]) + seq(p - p0, _ => l)
    {
      i := i - 1;
      huffsize[p] := l;
      p := p + 1;
    }
  }

  /** Figure C.2: the codes themselves; fails when they do not leave room for an all-ones code. */
  method GenerateCodes(huffsize: array<nat>, huffcode: array<nat>, ghost s: seq<nat>) returns (ok: bool)
    requires huffsize.Length == huffcode.Length == 257 && huffsize != huffcode
    requires Lengths(s) && |s| <= 256 && huffsize[..|s|] == s && huffsize[|s|] == 0
    modifies huffcode
    ensures ok <==> Fits(s)
    ensures ok ==> huffcode[..|s|] == Codes(s)
  {
    hide Units, Pow2, Code, Fits;
    ok := true;
    var code, si, p := 0, huffsize[0], 0;
    SizesStart(s, si);
    while huffsize[p] != 0
      invariant p <= |s| && si <= 17 && huffsize[..|s|] == s && huffsize[|s|] == 0
      invariant Between(s, p, si) && code == Units(s[..p], si) && code < Pow2(si)
      invariant forall i :: 0 <= i < p ==> huffcode[i] == Code(s, i)
      decreases 17 - si
    {
      assert s[p] == huffsize[p] && si <= s[p];
      code, p := CodesOfSize(huffsize, huffcode, si, code, p, s);
      CodesDone(s, p, si);
      if code >= Pow2(si) {
        return false;
      }
      code := code * 2;
      si := si + 1;
    }
    FitsAtEnd(s, si);
  }

  /** The codes before p are shorter than si, the others are not. */
  predicate Between(s: seq<nat>, p: nat, si: nat)
    requires p <= |s|
  {
    && (forall i :: 0 <= i < p ==> s[i] < si)
    && (forall i :: p <= i < |s| ==> si <= s[i])
  }

  lemma SizesStart(s: seq<nat>, si: nat)
    requires Lengths(s) && (|s| > 0 ==> si == s[0])
    ensures Between(s, 0, si) && Units(s[..0], si) == 0 < Pow2(si)
  {
  }

  /** One bit more. */
  lemma CodesDone(s: seq<nat>, p: nat, si: nat)
    requires Lengths(s) && p <= |s|
    requires (forall i :: 0 <= i < p ==> s[i] <= si) && (forall i :: p <= i < |s| ==> si < s[i])
    requires si <= 16
    ensures Between(s, p, si + 1)
    ensures Units(s[..p], si + 1) == 2 * Units(s[..p], si) && Pow2(si + 1) == 2 * Pow2(si)
    ensures Units(s[..p], si) >= Pow2(si) ==> !Fits(s)
  {
    hide Units;
    UnitsScale(s[..p], si, 1);
    UnitsCompare(s[..p], si, 16 - si);
    UnitsMonotone(s, p, 16);
    assert Pow2(1) == 2;
    hide Pow2;
    Pow2Values();
  }

  lemma FitsAtEnd(s: seq<nat>, si: nat)
    requires Lengths(s) && Between(s, |s|, si) && si <= 17 && Units(s[..|s|], si) < Pow2(si)
    ensures Fits(s)
  {
    hide Units, Pow2;
    assert s[..|s|] == s;
    Pow2Values();
    if si <= 16 {
      UnitsCompare(s, si, 16 - si);
    } else {
      UnitsCompare(s, 16, 1);
    }
  }

  method CodesOfSize(huffsize: array<nat>, huffcode: array<nat>, si: nat, code0: nat, p0: nat, ghost s: seq<nat>)
      returns (code: nat, p: nat)
    requires huffsize.Length == huffcode.Length == 257 && huffsize != huffcode
    requires Lengths(s) && |s| <= 256 && huffsize[..|s|] == s && huffsize[|s|] == 0
    requires p0 < |s| && 1 <= si && Between(s, p0, si) && code0 == Units(s[..p0], si)
    requires forall i :: 0 <= i < p0 ==> huffcode[i] == Code(s, i)
    modifies huffcode
    ensures p0 <= p <= |s|
    ensures (forall i :: 0 <= i < p ==> s[i] <= si) && (forall i :: p <= i < |s| ==> si < s[i])
    ensures code == Units(s[..p], si)
    ensures forall i :: 0 <= i < p ==> huffcode[i] == Code(s, i)
  {
    hide Units, Pow2, Code;
    code, p := code0, p0;
    while huffsize[p] == si
      invariant p0 <= p <= |s| && forall i :: 0 <= i < p ==> s[i] <= si
      invariant code == Units(s[..p], si)
      invariant forall i :: 0 <= i < p ==> huffcode[i] == Code(s, i)
      decreases |s| - p
    {
      assert p < |s| && s[p] == si;
      CodeIs(s, p);
      huffcode[p] := code;
      p := p + 1;
      code := code + 1;
    }
    assert forall i :: p <= i < |s| ==> s[p] <= s[i];
  }

  lemma CodeIs(s: seq<nat>, p: nat)
    requires Lengths(s) && p < |s|
    ensures Code(s, p) == Units(s[..p], s[p]) && Units(s[..p + 1], s[p]) == Code(s, p) + 1
  {
    NextCode(s, p);
  }

  // ---- the encoder's table ----

  /** Code and length by symbol; symbols without a code have length zero. */
  datatype EncoderTable = EncoderTable(ehufco: seq<nat>, ehufsi: seq<nat>) {
    predicate Assigns(symbols: seq<nat>, sizes: seq<nat>, codes: seq<nat>) {
      && |ehufco| == |ehufsi| == 256 && |symbols| == |sizes| == |codes|
      && (forall i :: 0 <= i < |symbols| ==> symbols[i] < 256)
      && (forall i :: 0 <= i < |symbols| ==> ehufco[symbols[i]] == codes[i] && ehufsi[symbols[i]] == sizes[i])
      && (forall x :: 0 <= x < 256 && x !in symbols ==> ehufsi[x] == 0)
    }

    predicate For(t: Table) {
      && t.WellFormed() && Lengths(t.Sizes()) && |t.Sizes()| <= 256
      && Assigns(t.huffval[..|t.Sizes()|], t.Sizes(), Codes(t.Sizes()))
    }

    lemma Assign(symbols: seq<nat>, sizes: seq<nat>, codes: seq<nat>, x: nat, size: nat, code: nat)
      requires Assigns(symbols, sizes, codes) && x < 256 && x !in symbols
      ensures EncoderTable(ehufco[x := code], ehufsi[x := size]).Assigns(symbols + [x], sizes + [size], codes + [code])
    {
    }

    lemma Used(symbols: seq<nat>, sizes: seq<nat>, codes: seq<nat>, x: nat)
      requires Assigns(symbols, sizes, codes) && x < 256
      requires forall i :: 0 <= i < |sizes| ==> sizes[i] >= 1
      ensures |ehufco| == |ehufsi| == 256 && (x in symbols <==> ehufsi[x] != 0)
    {
      if x in symbols {
        var i :| 0 <= i < |symbols| && symbols[i] == x;
      }
    }
  }

  lemma SymbolsSnoc(symbols: seq<nat>, x: nat, maxsymbol: nat)
    ensures SymbolsOk(symbols + [x], maxsymbol) <==> SymbolsOk(symbols, maxsymbol) && x <= maxsymbol && x !in symbols
  {
    var all := symbols + [x];
    assert all[|symbols|] == x && forall i :: 0 <= i < |symbols| ==> all[i] == symbols[i];
    if SymbolsOk(all, maxsymbol) {
      assert forall i :: 0 <= i < |symbols| ==> all[i] != all[|symbols|];
      assert forall i, j :: 0 <= i < j < |symbols| ==> all[i] != all[j];
    }
  }

  lemma SymbolsPrefix(symbols: seq<nat>, n: nat, maxsymbol: nat)
    requires n <= |symbols|
    ensures SymbolsOk(symbols, maxsymbol) ==> SymbolsOk(symbols[..n], maxsymbol)
  {
  }

  /** Accepts exactly the tables whose codes fit and whose symbols are distinct and in range. */
  method MakeEncoderTable(isDc: bool, t: Table) returns (ok: bool, table: EncoderTable)
    requires t.WellFormed()
    ensures ok <==> Acceptable(t, isDc)
    ensures ok ==> table.For(t)
  {
    hide Units, Pow2, Code, Codes, Fits, Expand;
    table := EncoderTable([], []);
    var huffsize, huffcode := new nat[257], new nat[257];
    var lastp;
    ok, lastp := GenerateSizes(t, huffsize);
    if !ok {
      return;
    }
    ghost var s := t.Sizes();
    SizesLengths(t);
    ok := GenerateCodes(huffsize, huffcode, s);
    if !ok {
      return;
    }
    assert huffsize[..lastp] == s && huffcode[..lastp] == Codes(s);
    ok, table := AssignSymbols(t.huffval[..lastp], huffsize[..lastp], huffcode[..lastp], if isDc then 15 else 255);
  }

  /** Figure C.3: code and length indexed by symbol; fails on a symbol out of range or given twice. */
  method AssignSymbols(symbols: seq<nat>, sizes: seq<nat>, codes: seq<nat>, maxsymbol: nat)
      returns (ok: bool, table: EncoderTable)
    requires |symbols| == |sizes| == |codes| && maxsymbol < 256
    requires forall i :: 0 <= i < |sizes| ==> sizes[i] >= 1
    ensures ok <==> SymbolsOk(symbols, maxsymbol)
    ensures ok ==> table.Assigns(symbols, sizes, codes)
  {
    hide SymbolsOk, EncoderTable.Assigns;
    table := EncoderTable(seq(256, _ => 0), seq(256, _ => 0));
    SymbolsNone(table, symbols, sizes, codes, maxsymbol);
    for p := 0 to |symbols|
      invariant SymbolsOk(symbols[..p], maxsymbol)
      invariant table.Assigns(symbols[..p], sizes[..p], codes[..p])
    {
      var i := symbols[p];
      assert symbols[..p + 1] == symbols[..p] + [i] && sizes[..p + 1] == sizes[..p] + [sizes[p]]
          && codes[..p + 1] == codes[..p] + [codes[p]];
      SymbolsSnoc(symbols[..p], i, maxsymbol);
      SymbolsPrefix(symbols, p + 1, maxsymbol);
      if i > maxsymbol {
        return false, table;
      }
      table.Used(symbols[..p], sizes[..p], codes[..p], i);
      if table.ehufsi[i] != 0 {
        return false, table;
      }
      table.Assign(symbols[..p], sizes[..p], codes[..p], i, sizes[p], codes[p]);
      table := EncoderTable(table.ehufco[i := codes[p]], table.ehufsi[i := sizes[p]]);
    }
    assert symbols[..|symbols|] == symbols && sizes[..|symbols|] == sizes && codes[..|symbols|] == codes;
    ok := true;
  }

  lemma SymbolsNone(table: EncoderTable, symbols: seq<nat>, sizes: seq<nat>, codes: seq<nat>, maxsymbol: nat)
    requires |symbols| == |sizes| == |codes| && table == EncoderTable(seq(256, _ => 0), seq(256, _ => 0))
    ensures SymbolsOk(symbols[..0], maxsymbol) && table.Assigns(symbols[..0], sizes[..0], codes[..0])
  {
  }

  // ---- the decoder's tables ----

  const HUFF_LOOKAHEAD: nat := 8
  const TOO_LONG: nat := 0x900    // no code of up to 8 bits starts the way these 8 bits do

  /** A code of exactly l bits is at most maxcode, and the offset gives its index; longer ones start beyond maxcode. */
  predicate Decides(s: seq<nat>, l: nat, maxcode: int, valoffset: int)
    requires Lengths(s)
  {
    && (forall i :: 0 <= i < |s| && s[i] == l ==> Code(s, i) <= maxcode && Code(s, i) + valoffset == i)
    && (forall i :: 0 <= i < |s| && s[i] > l ==> Code(s, i) / Pow2(s[i] - l) > maxcode)
  }

  /** No code of up to 8 bits starts these 8 bits. */
  predicate StartsNone(s: seq<nat>, x: nat)
    requires Lengths(s)
  {
    forall i :: 0 <= i < |s| && s[i] <= 8 ==> !Starts(s, i, x)
  }

  /** The entry of 8 bits that start with a short code names it; otherwise it says that the code is too long. */
  predicate LooksUp(s: seq<nat>, huffval: seq<nat>, lookup: seq<nat>)
    requires Lengths(s) && |s| <= |huffval| && |lookup| == 256
  {
    && (forall i, x :: 0 <= i < |s| && s[i] <= 8 && 0 <= x < 256 && x / Pow2(8 - s[i]) == Code(s, i) ==>
          lookup[x] == s[i] * 0x100 + huffval[i])
    && (forall i, x :: 0 <= i < |s| && s[i] > 8 && 0 <= x < 256 && x == Code(s, i) / Pow2(s[i] - 8) ==>
          lookup[x] == TOO_LONG)
    && (forall x :: 0 <= x < 256 && StartsNone(s, x) ==> lookup[x] == TOO_LONG)
  }

  /** Largest code and index offset by length, and what the next 8 bits decide. */
  datatype DecoderTable = DecoderTable(maxcode: seq<int>, valoffset: seq<int>, lookup: seq<nat>, huffval: seq<nat>) {
    predicate For(t: Table) {
      && t.WellFormed() && Lengths(t.Sizes()) && |t.Sizes()| <= 256 && huffval == t.huffval
      && |maxcode| == |valoffset| == 18 && maxcode[17] == 0xFFFFF
      && (forall l :: 1 <= l <= 16 ==> Decides(t.Sizes(), l, maxcode[l], valoffset[l]))
      && |lookup| == 256 && LooksUp(t.Sizes(), huffval, lookup)
    }
  }

  /** The codes of length l are those from first up to past. */
  lemma OfLength(bits: seq<nat>, l: nat)
    requires |bits| == 17 && 1 <= l <= 16
    ensures var s, first, past := Expand(bits, 16), |Expand(bits, l - 1)|, |Expand(bits, l)|;
      && first + bits[l] == past <= |s|
      && (forall i :: 0 <= i < first ==> s[i] < l)
      && (forall i :: first <= i < past ==> s[i] == l)
      && (forall i :: past <= i < |s| ==> s[i] > l)
  {
    hide Expand;
    ExpandStep(bits, l);
    ExpandPrefix(bits, l - 1, 16);
    ExpandPrefix(bits, l, 16);
    ExpandRest(bits, l, 16);
  }

  lemma {:induction false} ExpandRest(bits: seq<nat>, l: nat, m: nat)
    requires l <= m < |bits|
    ensures |Expand(bits, l)| <= |Expand(bits, m)|
    ensures forall i :: |Expand(bits, l)| <= i < |Expand(bits, m)| ==> Expand(bits, m)[i] > l
  {
    if l < m {
      ExpandRest(bits, l, m - 1);
    }
  }

  lemma DecidesUsed(s: seq<nat>, l: nat, first: nat, past: nat)
    requires Lengths(s) && first < past <= |s|
    requires (forall i :: first <= i < past ==> s[i] == l) && (forall i :: past <= i < |s| ==> s[i] > l)
    requires forall i :: 0 <= i < first ==> s[i] < l
    ensures Decides(s, l, Code(s, past - 1), first - Code(s, first))
  {
    hide Code, Pow2;
    forall i | 0 <= i < |s| && s[i] == l
      ensures Code(s, i) <= Code(s, past - 1) && Code(s, i) + first - Code(s, first) == i
    {
      Consecutive(s, first, i);
      Consecutive(s, i, past - 1);
    }
    forall i | 0 <= i < |s| && s[i] > l
      ensures Code(s, i) / Pow2(s[i] - l) > Code(s, past - 1)
    {
      LaterCode(s, past - 1, i);
    }
  }

  lemma DecidesUnused(s: seq<nat>, l: nat, valoffset: int)
    requires Lengths(s) && forall i :: 0 <= i < |s| ==> s[i] != l
    ensures Decides(s, l, -1, valoffset)
  {
    hide Code, Pow2;
  }

  /** Figure F.15: tables for bit-sequential decoding. */
  method LengthTables(t: Table, huffcode: seq<nat>) returns (maxcode: array<int>, valoffset: array<int>)
    requires t.WellFormed() && Lengths(t.Sizes()) && huffcode == Codes(t.Sizes())
    ensures fresh(maxcode) && fresh(valoffset) && maxcode.Length == valoffset.Length == 18 && maxcode[17] == 0xFFFFF
    ensures forall l :: 1 <= l <= 16 ==> Decides(t.Sizes(), l, maxcode[l], valoffset[l])
  {
    hide Expand, Decides, Code;
    ghost var s := t.Sizes();
    maxcode, valoffset := new int[18], new int[18];
    var p := 0;
    ExpandStep(t.bits, 0);
    for l := 1 to 17
      invariant p == |Expand(t.bits, l - 1)|
      invariant forall m :: 1 <= m < l ==> Decides(s, m, maxcode[m], valoffset[m])
    {
      OfLength(t.bits, l);
      if t.bits[l] != 0 {
        DecidesUsed(s, l, p, p + t.bits[l]);
        valoffset[l] := p - huffcode[p];
        p := p + t.bits[l];
        maxcode[l] := huffcode[p - 1];
      } else {
        DecidesUnused(s, l, valoffset[l]);
        maxcode[l] := -1;
      }
    }
    valoffset[17] := 0;
    maxcode[17] := 0xFFFFF;
  }

  /** The 8 bits x start with the i-th code. */
  predicate Starts(s: seq<nat>, i: nat, x: nat)
    requires Lengths(s) && i < |s| && s[i] <= 8
  {
    x / Pow2(8 - s[i]) == Code(s, i)
  }

  predicate Short(s: seq<nat>, p: nat)
    requires p <= |s|
  {
    forall i :: 0 <= i < p ==> s[i] <= 8
  }

  /** The entries below q have been filled for the first p codes, in order. */
  predicate Filled(s: seq<nat>, huffval: seq<nat>, lookup: seq<nat>, p: nat, q: nat)
    requires Lengths(s) && p <= |s| <= |huffval| && |lookup| == 256 && Short(s, p)
  {
    && q <= 256 && q == Units(s[..p], 8)
    && (forall x :: q <= x < 256 ==> lookup[x] == TOO_LONG)
    && (forall x :: 0 <= x < q ==> exists i :: 0 <= i < p && Starts(s, i, x) && lookup[x] == s[i] * 0x100 + huffval[i])
  }

  lemma FilledStep(s: seq<nat>, huffval: seq<nat>, lookup: seq<nat>, p: nat, q: nat, lookup': seq<nat>)
    requires Lengths(s) && Fits(s) && p < |s| <= |huffval| && |lookup| == 256 && Short(s, p + 1)
    requires Filled(s, huffval, lookup, p, q)
    requires var n := Pow2(8 - s[p]);
      q + n <= 256 ==>
        lookup' == lookup[..q] + seq(n, _ => s[p] * 0x100 + huffval[p]) + lookup[q + n..]
    ensures q == Code(s, p) * Pow2(8 - s[p]) && q + Pow2(8 - s[p]) <= 256
    ensures |lookup'| == 256 && Filled(s, huffval, lookup', p + 1, q + Pow2(8 - s[p]))
  {
    hide Pow2, Units, Code, Fits, Starts;
    FilledBounds(s, p, q);
    var n := Pow2(8 - s[p]);
    forall x | q <= x < q + n
      ensures Starts(s, p, x) && lookup'[x] == s[p] * 0x100 + huffval[p]
    {
      StartsIn(s, p, q, x);
    }
    forall x | 0 <= x < q
      ensures exists i :: 0 <= i < p + 1 && Starts(s, i, x) && lookup'[x] == s[i] * 0x100 + huffval[i]
    {
      var i :| 0 <= i < p && Starts(s, i, x) && lookup[x] == s[i] * 0x100 + huffval[i];
      assert lookup'[x] == lookup[x];
    }
  }

  lemma StartsIn(s: seq<nat>, p: nat, q: nat, x: nat)
    requires Lengths(s) && p < |s| && s[p] <= 8
    requires q == Code(s, p) * Pow2(8 - s[p]) && q <= x < q + Pow2(8 - s[p])
    ensures Starts(s, p, x)
  {
    hide Pow2, Code;
    DivModUnique(x, Code(s, p), x - q, Pow2(8 - s[p]));
  }

  lemma FilledBounds(s: seq<nat>, p: nat, q: nat)
    requires Lengths(s) && Fits(s) && p < |s| && Short(s, p + 1) && q == Units(s[..p], 8)
    ensures q == Code(s, p) * Pow2(8 - s[p]) && q + Pow2(8 - s[p]) == Units(s[..p + 1], 8) <= 256
  {
    hide Pow2, Units;
    assert s[..p + 1] == s[..p] + [s[p]];
    UnitsScale(s[..p], s[p], 8 - s[p]);
    UnitsSnoc(s[..p], s[p], 8);
    UnitsMonotone(s, p + 1, 16);
    UnitsCompare(s[..p + 1], 8, 8);
    NextCode(s, p);
    CodeBound(s, p);
    SpaceLeft(s, p);
  }

  lemma SpaceLeft(s: seq<nat>, p: nat)
    requires Lengths(s) && Fits(s) && p < |s| && Short(s, p + 1)
    ensures Units(s[..p + 1], 8) <= 256
  {
    hide Pow2, Units;
    Pow2Values();
    UnitsMonotone(s, p + 1, 16);
    UnitsCompare(s[..p + 1], 8, 8);
  }

  /** The 8 bits decide at most one code. */
  lemma StartsOnce(s: seq<nat>, i: nat, j: nat, x: nat)
    requires Lengths(s) && i < j < |s| && s[j] <= 8 && Starts(s, j, x)
    ensures !Starts(s, i, x)
  {
    hide Pow2, Code;
    var a, b := 8 - s[j], s[j] - s[i];
    LaterCode(s, i, j);
    DivideTwice(x, Pow2(a), Pow2(b));
    Pow2Sum(a, b);
    assert a + b == 8 - s[i];
  }

  lemma FilledLooksUp(s: seq<nat>, huffval: seq<nat>, lookup: seq<nat>, p: nat, q: nat)
    requires Lengths(s) && p <= |s| <= |huffval| && |lookup| == 256 && Short(s, p)
    requires Filled(s, huffval, lookup, p, q) && forall i :: p <= i < |s| ==> s[i] > 8
    ensures LooksUp(s, huffval, lookup)
  {
    hide Pow2, Code, Units, Starts;
    forall i, x | 0 <= i < p && 0 <= x < 256 && Starts(s, i, x)
      ensures lookup[x] == s[i] * 0x100 + huffval[i]
    {
      StartsBelow(s, i, p, x);
      var j :| 0 <= j < p && Starts(s, j, x) && lookup[x] == s[j] * 0x100 + huffval[j];
      if i < j {
        StartsOnce(s, i, j, x);
      } else if j < i {
        StartsOnce(s, j, i, x);
      }
    }
    forall i, x | p <= i < |s| && 0 <= x < 256 && x == Code(s, i) / Pow2(s[i] - 8)
      ensures lookup[x] == TOO_LONG
    {
      LongBeyond(s, i, p);
    }
    StartsDefinition(s);
  }

  lemma StartsDefinition(s: seq<nat>)
    requires Lengths(s)
    ensures forall i: nat, x: nat :: i < |s| && s[i] <= 8 ==> (Starts(s, i, x) <==> x / Pow2(8 - s[i]) == Code(s, i))
  {
  }

  lemma StartsBelow(s: seq<nat>, i: nat, p: nat, x: nat)
    requires Lengths(s) && i < p <= |s| && Short(s, p) && Starts(s, i, x)
    ensures x < Units(s[..p], 8)
  {
    hide Pow2, Units, Code;
    var n := Pow2(8 - s[i]);
    NextCode(s, i);
    UnitsScale(s[..i + 1], s[i], 8 - s[i]);
    UnitsMonotone(s[..p], i + 1, 8);
    assert s[..p][..i + 1] == s[..i + 1];
    assert x == x / n * n + x % n;
    Distribute(Code(s, i), 1, n);
  }

  lemma LongBeyond(s: seq<nat>, i: nat, p: nat)
    requires Lengths(s) && p <= i < |s| && Short(s, p) && s[i] > 8
    ensures Code(s, i) / Pow2(s[i] - 8) >= Units(s[..p], 8)
  {
    hide Pow2, Units;
    UnitsScale(s[..p], 8, s[i] - 8);
    UnitsMonotone(s[..i], p, s[i]);
    assert s[..i][..p] == s[..p];
    QuotientAtLeast(Code(s, i), Units(s[..p], 8), Pow2(s[i] - 8));
  }

  /** The entries of all 8-bit strings that start with one code. */
  method FillEntries(lookup: array<nat>, lookbits0: nat, n: nat, entry: nat)
    requires lookup.Length == 256 && lookbits0 + n <= 256
    modifies lookup
    ensures lookup[..] == old(lookup[..lookbits0]) + seq(n, _ => entry) + old(lookup[lookbits0 + n..])
  {
    var lookbits: nat, ctr: nat := lookbits0, n;
    while ctr > 0
      invariant lookbits + ctr == lookbits0 + n
      invariant lookup[..lookbits] == old(lookup[..lookbits0]) + seq(lookbits - lookbits0, _ => entry)
      invariant lookup[lookbits..] == old(lookup[lookbits..])
    {
      lookup[lookbits] := entry;
      lookbits := lookbits + 1;
      ctr := ctr - 1;
    }
    assert lookup[..] == lookup[..lookbits] + lookup[lookbits..];
  }

  /** The lookahead table: first every entry says "too long", then the short codes fill theirs. */
  method LookaheadTable(t: Table, huffcode: seq<nat>) returns (lookup: array<nat>)
    requires t.WellFormed() && |t.Sizes()| <= 256 && Lengths(t.Sizes()) && Fits(t.Sizes()) && huffcode == Codes(t.Sizes())
    ensures fresh(lookup) && lookup.Length == 256 && LooksUp(t.Sizes(), t.huffval, lookup[..])
  {
    hide Expand, Filled, LooksUp, Code, Pow2, Units, Fits;
    ghost var s, q := t.Sizes(), 0;
    lookup := new nat[256](_ => TOO_LONG);
    var p := 0;
    ExpandStep(t.bits, 0);
    FilledStart(s, t.huffval, lookup[..]);
    for l := 1 to 9
      invariant p == |Expand(t.bits, l - 1)| <= |s| && Short(s, p)
      invariant Filled(s, t.huffval, lookup[..], p, q)
    {
      OfLength(t.bits, l);
      ghost var first := p;
      for i := 0 to t.bits[l]
        invariant p == first + i && Short(s, p)
        invariant Filled(s, t.huffval, lookup[..], p, q)
      {
        assert Short(s, p + 1) && s[p] == l;
        q := EnterCode(t, huffcode, lookup, l, p, q);
        p := p + 1;
      }
    }
    OfLength(t.bits, 8);
    FilledLooksUp(s, t.huffval, lookup[..], p, q);
  }

  method EnterCode(t: Table, huffcode: seq<nat>, lookup: array<nat>, l: nat, p: nat, ghost q: nat) returns (ghost q': nat)
    requires t.WellFormed() && |t.Sizes()| <= 256 && Lengths(t.Sizes()) && Fits(t.Sizes()) && huffcode == Codes(t.Sizes())
    requires p < |t.Sizes()| && t.Sizes()[p] == l <= 8 && lookup.Length == 256
    requires Short(t.Sizes(), p + 1) && Filled(t.Sizes(), t.huffval, lookup[..], p, q)
    modifies lookup
    ensures Filled(t.Sizes(), t.huffval, lookup[..], p + 1, q')
  {
    hide Expand, Code, Pow2, Units, Fits;
    ghost var s, before := t.Sizes(), lookup[..];
    FilledBounds(s, p, q);
    var lookbits := huffcode[p] * Pow2(8 - l);
    FillEntries(lookup, lookbits, Pow2(8 - l), l * 0x100 + t.huffval[p]);
    assert old(lookup[..lookbits]) == before[..q] && old(lookup[lookbits + Pow2(8 - l)..]) == before[q + Pow2(8 - l)..];
    FilledStep(s, t.huffval, before, p, q, lookup[..]);
    q' := q + Pow2(8 - l);
  }

  lemma FilledStart(s: seq<nat>, huffval: seq<nat>, lookup: seq<nat>)
    requires Lengths(s) && |s| <= |huffval| && |lookup| == 256 && forall x :: 0 <= x < 256 ==> lookup[x] == TOO_LONG
    ensures Short(s, 0) && Filled(s, huffval, lookup, 0, 0)
  {
  }

  /** Unlike the encoder's table, this one does not need distinct symbols, nor AC symbols in any range. */
  predicate Decodable(t: Table, isDc: bool) {
    && t.WellFormed() && |t.Sizes()| <= 256 && Lengths(t.Sizes()) && Fits(t.Sizes())
    && (isDc ==> forall i :: 0 <= i < |t.Sizes()| ==> t.huffval[i] <= 15)
  }

  method MakeDecoderTable(isDc: bool, t: Table) returns (ok: bool, table: DecoderTable)
    requires t.WellFormed()
    ensures ok <==> Decodable(t, isDc)
    ensures ok ==> table.For(t)
  {
    hide Units, Pow2, Code, Codes, Fits, Expand, Decides, LooksUp;
    table := DecoderTable([], [], [], []);
    var huffsize, huffcode := new nat[257], new nat[257];
    var numsymbols;
    ok, numsymbols := GenerateSizes(t, huffsize);
    if !ok {
      return;
    }
    SizesLengths(t);
    ok := GenerateCodes(huffsize, huffcode, t.Sizes());
    if !ok {
      return;
    }
    var codes := huffcode[..numsymbols];
    var maxcode, valoffset := LengthTables(t, codes);
    var lookup := LookaheadTable(t, codes);
    if isDc {
      for i := 0 to numsymbols
        invariant forall j :: 0 <= j < i ==> t.huffval[j] <= 15
      {
        if t.huffval[i] > 15 {
          return false, table;
        }
      }
    }
    table := DecoderTable(maxcode[..], valoffset[..], lookup[..], t.huffval);
  }

  /** What the encoder accepts, the decoder accepts. */
  lemma AcceptableDecodable(t: Table, isDc: bool)
    requires Acceptable(t, isDc)
    ensures Decodable(t, isDc)
  {
    hide Expand, Fits;
    SizesLengths(t);
    assert forall i :: 0 <= i < |t.Sizes()| ==> t.huffval[..|t.Sizes()|][i] == t.huffval[i];
  }
}
