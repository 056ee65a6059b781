/**
  jpeg_gen_optimal_table of jchuff.c: a Huffman table for given symbol counts, after T.81 section K.2; of least cost as
  long as no code has to be shortened.
*/
module OptimalTable {
  import opened Powers
  import opened HuffmanForest
  import opened HuffmanCode
  import opened LengthCounts
  import opened LeastCost

  const MAX_CLEN: nat := 32
  const LARGE: nat := 1_000_000_000

  /** The 35th Fibonacci number: fewer counts never make a code longer than MAX_CLEN. */
  const FIB_35: nat := 9_227_465

  /** The smallest count that is not zero, other than that of skip; the larger symbol in case of ties; -1 if none. */
  method FindSmallest(freq: array<nat>, skip: int) returns (c: int)
    requires freq.Length == SYMBOLS && forall s :: 0 <= s < SYMBOLS ==> freq[s] <= LARGE
    ensures c == -1 ==> forall s :: 0 <= s < SYMBOLS && s != skip ==> freq[s] == 0
    ensures c != -1 ==> 0 <= c < SYMBOLS && c != skip && freq[c] > 0
    ensures c != -1 ==> forall s :: 0 <= s < SYMBOLS && s != skip && freq[s] > 0 ==>
      if s > c then freq[c] < freq[s] else freq[c] <= freq[s]
  {
    c := -1;
    var v := LARGE;
    for i := 0 to SYMBOLS
      invariant c == -1 ==> v == LARGE && forall s :: 0 <= s < i && s != skip ==> freq[s] == 0
      invariant c != -1 ==> 0 <= c < i && c != skip && freq[c] > 0 && freq[c] == v
      invariant c != -1 ==> forall s :: 0 <= s < i && s != skip && freq[s] > 0 ==>
        if s > c then v < freq[s] else v <= freq[s]
    {
      if freq[i] != 0 && freq[i] <= v && i != skip {
        v := freq[i];
        c := i;
      }
    }
  }

  /** Increments the code size of everything on the chain that starts at c; returns its last symbol. */
  method Deepen(codesize: array<nat>, others: array<int>, c: nat, ghost chain: seq<nat>) returns (last: nat)
    requires codesize.Length == others.Length == SYMBOLS
    requires Linked(others[..], chain) && Distinct(chain) && chain[0] == c
    modifies codesize
    ensures last == chain[|chain| - 1]
    ensures forall s :: 0 <= s < SYMBOLS ==> codesize[s] == old(codesize[s]) + if s in chain then 1 else 0
  {
    last := c;
    ghost var i := 0;
    codesize[last] := codesize[last] + 1;
    assert chain[..1] == [c];
    while others[last] >= 0
      invariant 0 <= i < |chain| && last == chain[i] && last < SYMBOLS
      invariant forall s :: 0 <= s < SYMBOLS ==> codesize[s] == old(codesize[s]) + if s in chain[..i + 1] then 1 else 0
      decreases |chain| - i
    {
      assert others[..][chain[i]] == chain[i + 1];
      assert chain[..i + 2] == chain[..i + 1] + [chain[i + 1]];
      last := others[last];
      i := i + 1;
      codesize[last] := codesize[last] + 1;
    }
    LinksForward(others[..], chain);
    assert chain[..i + 1] == chain;
  }

  /** What holds of the arrays after every merge. */
  ghost predicate Growing(f: Forest, freq: array<nat>, codesize: array<nat>, others: array<int>)
    reads freq, codesize, others
  {
    && freq.Length == codesize.Length == others.Length == SYMBOLS
    && Chains(f, freq[..], others[..]) && Depths(f, freq[..], codesize[..]) && Heavy(f, freq[..])
  }

  /** Merges the two counts and trees. */
  method Merge(freq: array<nat>, codesize: array<nat>, others: array<int>, c1: nat, c2: nat, ghost f: Forest)
    requires freq != codesize && Growing(f, freq, codesize, others) && TwoSmallest(freq[..], c1, c2)
    modifies freq, codesize, others
    ensures freq[..] == Merged(old(freq[..]), c1, c2)
    ensures codesize[..] == Deepened(old(codesize[..]), f.root, c1, c2)
    ensures Growing(Joined(f, c1, c2), freq, codesize, others)
  {
    hide Chains, Depths, Heavy, Linked, Distinct, Joined;
    ghost var w, d, o := freq[..], codesize[..], others[..];
    TwoLive(w, c1, c2);
    LiveChain(f, w, o, c1);
    LiveChain(f, w, o, c2);
    ChainsStep(f, w, o, c1, c2);
    DepthsStep(f, w, d, c1, c2);
    HeavyStep(f, w, c1, c2);
    freq[c1] := freq[c1] + freq[c2];
    freq[c2] := 0;
    assert freq[..] == Merged(w, c1, c2);
    var last1 := Deepen(codesize, others, c1, f.chain[c1]);
    ghost var last := last1;
    others[last1] := c2;
    LinkedElsewhere(o, f.chain[c2], last, c2);
    assert others[..] == o[last := c2];
    var last2 := Deepen(codesize, others, c2, f.chain[c2]);
    assert codesize[..] == Deepened(d, f.root, c1, c2);
  }

  lemma TwoLive(freq: seq<nat>, c1: nat, c2: nat)
    requires TwoSmallest(freq, c1, c2)
    ensures c1 < |freq| && c2 < |freq| && c1 != c2 && freq[c1] > 0 && freq[c2] > 0
  {
  }

  /** Huffman's procedure: merges the two smallest counts until one is left. */
  method GrowTree(freq: array<nat>, codesize: array<nat>, others: array<int>, ghost a: nat, ghost b: nat)
      returns (ghost h: nat)
    requires freq.Length == codesize.Length == others.Length == SYMBOLS && freq != codesize
    requires Sum(freq[..]) <= LARGE
    requires a < SYMBOLS && b < SYMBOLS && a != b && freq[a] > 0 && freq[b] > 0
    requires forall s :: 0 <= s < SYMBOLS ==> codesize[s] == 0 && others[s] == -1
    modifies freq, codesize, others
    ensures Finished(old(freq[..]), codesize[..], h) && Least(old(freq[..]), codesize[..])
  {
    hide Chains, Depths, Heavy, Sum, Used, Finished, Bound, Weighed, Least, Cost;
    ghost var counts, f := freq[..], Seedlings(freq[..]);
    SeedlingChains(counts, others[..]);
    SeedlingDepths(counts, codesize[..]);
    SeedlingsHeavy(counts);
    SeedlingsWeighed(counts);
    NothingSpent(counts, codesize[..]);
    BoundStart(counts);
    while true
      invariant Growing(f, freq, codesize, others)
      invariant Sum(freq[..]) == Sum(counts)
      invariant Weighed(f, counts, freq[..]) && Bound(counts, freq[..], Cost(counts, codesize[..]))
      invariant f.Sized() && forall s :: 0 <= s < SYMBOLS ==> (f.root[s] == -1 <==> counts[s] == 0)
      decreases Used(freq[..])
    {
      forall s | 0 <= s < SYMBOLS
        ensures freq[s] <= LARGE
      {
        EachInSum(freq[..], s);
      }
      var c1 := FindSmallest(freq, -1);
      var c2 := FindSmallest(freq, c1);
      if c2 < 0 {
        ghost var c := StillLive(f, counts, freq[..], others[..], a);
        OneTreeFinishes(f, counts, freq[..], others[..], codesize[..], c, a, b);
        BoundEnds(counts, freq[..], codesize[..]);
        h := f.height[c];
        return;
      }
      MergedSum(freq[..], c1, c2);
      MergedUsed(freq[..], c1, c2);
      BoundStep(counts, freq[..], Cost(counts, codesize[..]), c1, c2);
      WeighedStep(f, counts, freq[..], c1, c2);
      CostStep(f, counts, freq[..], codesize[..], c1, c2);
      Merge(freq, codesize, others, c1, c2, f);
      f := Joined(f, c1, c2);
    }
  }

  lemma StillLive(f: Forest, counts: seq<nat>, freq: seq<nat>, others: seq<int>, a: nat) returns (c: nat)
    requires Chains(f, freq, others) && |counts| == SYMBOLS && a < SYMBOLS && counts[a] > 0
    requires f.root[a] == -1 <==> counts[a] == 0
    ensures c < SYMBOLS && freq[c] > 0
  {
    c := f.root[a];
  }

  type UInt8 = x: nat | x < 0x100

  /** Counts the symbols of each code length; fails when one is longer than was thought possible. */
  method CountLengths(codesize: array<nat>) returns (ok: bool, bits: array<UInt8>)
    requires codesize.Length == SYMBOLS && Used(codesize[..]) < 0x100
    ensures ok <==> forall s :: 0 <= s < SYMBOLS ==> codesize[s] <= MAX_CLEN
    ensures fresh(bits) && bits.Length == MAX_CLEN + 1
    ensures ok ==> bits[0] == 0 && Sum(bits[..]) == Used(codesize[..])
    ensures ok ==> Level(bits[..], MAX_CLEN) == Space(codesize[..], MAX_CLEN, SYMBOLS)
    ensures ok ==> forall l :: 1 <= l <= MAX_CLEN ==> bits[l] == |OfSize(codesize[..], l, SYMBOLS)|
  {
    hide Sum, Used, Level, Pow2, OfSize;
    bits := new UInt8[MAX_CLEN + 1](_ => 0);
    ghost var sizes := codesize[..];
    CountingStarts(bits[..], sizes);
    NoneSizedYet(sizes);
    for i := 0 to SYMBOLS
      invariant forall s :: 0 <= s < i ==> codesize[s] <= MAX_CLEN
      invariant bits[0] == 0 && Sum(bits[..]) == Used(sizes[..i])
      invariant Level(bits[..], MAX_CLEN) == Space(sizes, MAX_CLEN, i)
      invariant forall l :: 1 <= l <= MAX_CLEN ==> bits[l] == |OfSize(sizes, l, i)|
    {
      SizedOne(sizes, i);
      UsedPrefix(sizes, i + 1);
      UsedSnoc(sizes, i);
      if codesize[i] != 0 {
        if codesize[i] > MAX_CLEN {
          return false, bits;
        }
        ghost var before, l := bits[..], codesize[i];
        EachInSum(before, l);
        LevelMore(before, l, MAX_CLEN);
        bits[codesize[i]] := bits[codesize[i]] + 1;
        assert bits[..] == before[l := before[l] + 1];
        SumUpdate(before, bits[..], l);
      }
    }
    assert sizes[..SYMBOLS] == sizes;
    ok := true;
  }

  lemma SizedOne(sizes: seq<nat>, i: nat)
    requires i < |sizes|
    ensures forall l :: |OfSize(sizes, l, i + 1)| == |OfSize(sizes, l, i)| + if sizes[i] == l then 1 else 0
  {
  }

  lemma NoneSizedYet(sizes: seq<nat>)
    ensures forall l :: OfSize(sizes, l, 0) == []
  {
  }

  lemma CountingStarts(bits: seq<nat>, sizes: seq<nat>)
    requires |bits| == MAX_CLEN + 1 && forall l :: 0 <= l < |bits| ==> bits[l] == 0
    ensures Sum(bits) == Used(sizes[..0]) && Level(bits, MAX_CLEN) == 0
  {
    EmptyLevel(bits, MAX_CLEN);
    AllZeroSum(bits);
  }

  /** Brings all lengths down to 16, two symbols of the greatest length at a time. */
  method LimitLengths(bits: array<UInt8>)
    requires bits.Length == MAX_CLEN + 1 && bits[0] == 0 && Sum(bits[..]) < 0x100
    requires Level(bits[..], MAX_CLEN) == Pow2(MAX_CLEN)
    modifies bits
    ensures bits[0] == 0 && Sum(bits[..]) == old(Sum(bits[..]))
    ensures Complete(bits[..], 16)
    ensures (forall l :: 16 < l <= MAX_CLEN ==> old(bits[l]) == 0) ==> bits[..] == old(bits[..])
  {
    hide Sum, Level, Pow2, Complete, Shortened;
    CompleteAtFirst(bits[..]);
    ghost var total, before := Sum(bits[..]), bits[..];
    var i := MAX_CLEN;
    while i > 16
      invariant 16 <= i <= MAX_CLEN && bits[0] == 0 && Sum(bits[..]) == total && Complete(bits[..], i)
      invariant (forall l :: 16 < l <= MAX_CLEN ==> before[l] == 0) ==> bits[..] == before
    {
      while bits[i] > 0
        invariant bits[0] == 0 && Sum(bits[..]) == total && Complete(bits[..], i)
        invariant (forall l :: 16 < l <= MAX_CLEN ==> before[l] == 0) ==> bits[..] == before
      {
        LongestPaired(bits[..], i);
        ShortenPair(bits, i);
      }
      LongestPaired(bits[..], i);
      i := i - 1;
    }
  }

  lemma CompleteAtFirst(bits: seq<nat>)
    requires |bits| == MAX_CLEN + 1 && Level(bits, MAX_CLEN) == Pow2(MAX_CLEN)
    ensures Complete(bits, MAX_CLEN)
  {
    hide Level, Pow2;
  }

  method ShortenPair(bits: array<UInt8>, i: nat)
    requires 17 <= i <= MAX_CLEN && bits.Length == MAX_CLEN + 1 && bits[0] == 0 && Sum(bits[..]) < 0x100
    requires Complete(bits[..], i) && bits[i] >= 2
    modifies bits
    ensures bits[0] == 0 && Sum(bits[..]) == old(Sum(bits[..])) && Complete(bits[..], i)
    ensures bits[i] == old(bits[i]) - 2
  {
    hide Sum, Level, Pow2, Complete;
    ghost var before := bits[..];
    ghost var shorter := ShorterExists(before, i);
    var j: nat := i - 2;
    while bits[j] == 0
      invariant shorter <= j <= i - 2
      decreases j
    {
      j := j - 1;
    }
    ShortenedComplete(before, i, j);
    ShortenedFits(before, i, j);
    bits[i] := bits[i] - 2;
    bits[i - 1] := bits[i - 1] + 1;
    bits[j + 1] := bits[j + 1] + 2;
    bits[j] := bits[j] - 1;
    assert bits[..] == Shortened(before, i, j);
  }

  lemma ShortenedFits(bits: seq<nat>, i: nat, j: nat)
    requires 1 <= j <= i - 2 && i < |bits| && bits[i] >= 2 && bits[j] >= 1 && Complete(bits, i) && Sum(bits) < 0x100
    ensures Shortened(bits, i, j)[i - 1] < 0x100 && Shortened(bits, i, j)[j + 1] < 0x100
  {
    hide Sum, Level, Pow2, Complete, Shortened;
    ShortenedComplete(bits, i, j);
    EachInSum(Shortened(bits, i, j), i - 1);
    EachInSum(Shortened(bits, i, j), j + 1);
  }

  /** Takes back the code of the pseudo-symbol, which is one of the longest. */
  method RemovePseudo(bits: array<UInt8>) returns (i: nat)
    requires bits.Length == MAX_CLEN + 1 && bits[0] == 0 && Complete(bits[..], 16)
    modifies bits
    ensures 1 <= i <= 16 && bits[i] > 0 && bits[0] == 0
    ensures forall l :: i < l < bits.Length ==> bits[l] == 0
    ensures old(bits[i]) > 0 && bits[..] == old(bits[..])[i := old(bits[i]) - 1]
    ensures Sum(bits[..]) == old(Sum(bits[..])) - 1
    ensures Level(bits[..], 16) == Pow2(16) - Pow2(16 - i)
  {
    hide Sum, Level, Pow2, Complete;
    ghost var before := bits[..];
    i := 16;
    CompleteLength(before, 16);
    while bits[i] == 0
      invariant 1 <= i <= 16 && bits[..] == before && Complete(before, i)
      decreases i
    {
      LongestPaired(before, i);
      i := i - 1;
      CompleteLength(before, i);
    }
    PseudoRemoved(before, i);
    CompleteTail(before, i);
    bits[i] := bits[i] - 1;
    assert bits[..] == before[i := before[i] - 1];
    SumUpdate(before, bits[..], i);
  }

  lemma CompleteLength(bits: seq<nat>, i: nat)
    requires i < |bits| && Complete(bits, i)
    ensures i >= 1
  {
  }

  lemma CompleteTail(bits: seq<nat>, i: nat)
    requires i < |bits| && Complete(bits, i)
    ensures forall l :: i < l < |bits| ==> bits[l] == 0
  {
  }

  /** Lists the symbols sorted by code length. */
  method ListSymbols(codesize: array<nat>, huffval: array<UInt8>) returns (p: nat)
    requires codesize.Length == SYMBOLS && huffval.Length == 256
    modifies huffval
    ensures p <= 256 && huffval[..p] == BySize(codesize[..], MAX_CLEN, 256)
  {
    hide BySize, OfSize;
    p := 0;
    ListingStep(codesize[..], 0);
    for i := 1 to MAX_CLEN + 1
      invariant p <= 256 && huffval[..p] == BySize(codesize[..], i - 1, 256)
    {
      ListingStep(codesize[..], i);
      p := ListLength(codesize, huffval, p, i);
    }
  }

  /** Appends the symbols of one code length. */
  method ListLength(codesize: array<nat>, huffval: array<UInt8>, p0: nat, i: nat) returns (p: nat)
    requires codesize.Length == SYMBOLS && huffval.Length == 256 && i >= 1
    requires p0 <= 256 && huffval[..p0] == BySize(codesize[..], i - 1, 256)
    modifies huffval
    ensures p <= 256 && huffval[..p] == old(huffval[..p0]) + OfSize(codesize[..], i, 256)
  {
    hide BySize, OfSize;
    ghost var sizes, before := codesize[..], huffval[..p0];
    p := p0;
    OfSizeStep(sizes, i, 0);
    for j := 0 to 256
      invariant p <= 256 && huffval[..p] == before + OfSize(sizes, i, j)
    {
      OfSizeStep(sizes, i, j + 1);
      RoomFor(sizes, i, j + 1);
      if codesize[j] == i {
        huffval[p] := j;
        p := p + 1;
        assert huffval[..p] == huffval[..p - 1] + [j];
      }
    }
  }

  lemma ListingStep(sizes: seq<nat>, i: nat)
    requires |sizes| == SYMBOLS
    ensures if i == 0 then BySize(sizes, 0, 256) == []
      else BySize(sizes, i, 256) == BySize(sizes, i - 1, 256) + OfSize(sizes, i, 256)
  {
    hide OfSize;
  }

  lemma OfSizeStep(sizes: seq<nat>, i: nat, j: nat)
    requires j <= |sizes|
    ensures if j == 0 then OfSize(sizes, i, j) == []
      else OfSize(sizes, i, j) == OfSize(sizes, i, j - 1) + if sizes[j - 1] == i then [j - 1] else []
  {
  }

  /** Different symbols below 256 are at most 256. */
  lemma RoomFor(sizes: seq<nat>, i: nat, j: nat)
    requires |sizes| == SYMBOLS && 1 <= i && j <= 256
    ensures |BySize(sizes, i - 1, 256)| + |OfSize(sizes, i, j)| <= 256
  {
    hide BySize, OfSize;
    var a, b := BySize(sizes, i - 1, 256), OfSize(sizes, i, j);
    BySizeFacts(sizes, i - 1, 256);
    OfSizeFacts(sizes, i, j);
    DistinctSum(a, b);
    forall k | 0 <= k < |a + b|
      ensures (a + b)[k] < 256
    {
      assert (a + b)[k] in a || (a + b)[k] in b;
    }
    DistinctBound(a + b, 256);
  }

  lemma {:induction false} DistinctBound(s: seq<nat>, n: nat)
    requires AllDistinct(s) && forall i :: 0 <= i < |s| ==> s[i] < n
    ensures |s| <= n
  {
    assert |s| > 0 ==> s[0] < n;
    if n > 0 {
      if i :| 0 <= i < |s| && s[i] == n - 1 {
        DistinctBound(s[..i] + s[i + 1..], n - 1);
      } else {
        DistinctBound(s, n - 1);
      }
    }
  }

  // ---- the table ----

  /** What a caller can rely on, given the counts of the real symbols. */
  predicate TableFor(counts: seq<nat>, t: Table) {
    && t.WellFormed() && |counts| == 256
    && var s := t.Sizes();
    && Lengths(s) && 0 < |s| == Used(counts) <= 256
    && Units(s, 16) == 0x10000 - Pow2(16 - s[|s| - 1])
    && AllDistinct(t.huffval[..|s|])
    && (forall x :: 0 <= x < 256 ==> (counts[x] > 0 <==> x in t.huffval[..|s|]))
  }

  /** It is accepted wherever its symbols may be used: everywhere, or in a DC table when none is over 15. */
  lemma TableAcceptable(counts: seq<nat>, t: Table, isDc: bool)
    requires TableFor(counts, t) && forall x :: MaxSymbol(isDc) < x < 256 ==> counts[x] == 0
    ensures Acceptable(t, isDc)
  {
    hide Pow2, Units, Expand, Used;
    var n := |t.Sizes()|;
    forall i | 0 <= i < n
      ensures t.huffval[..n][i] <= MaxSymbol(isDc)
    {
      assert t.huffval[i] in t.huffval[..n];
    }
  }

  /** The counts after lengths are limited and the pseudo-symbol removed make the table. */
  lemma SizesFrom(bits: seq<nat>, i: nat)
    requires |bits| == MAX_CLEN + 1 && bits[0] == 0 && 1 <= i <= 16 && bits[i] > 0
    requires forall l :: i < l < |bits| ==> bits[l] == 0
    requires Level(bits, 16) == Pow2(16) - Pow2(16 - i)
    ensures var s := Expand(bits[..17], 16);
      && Lengths(s) && 0 < |s| == Sum(bits)
      && Units(s, 16) == 0x10000 - Pow2(16 - s[|s| - 1])
  {
    hide Level, Pow2, Expand, Units, Sum;
    Pow2Values();
    var head := bits[..17];
    var s := Expand(head, 16);
    LevelSame(bits, head, 16);
    ExpandLevel(head, 16);
    ExpandCount(head, 16);
    assert head[..17] == head;
    SumPrefix(bits, 17);
    LastSize(head, i, 16);
  }

  lemma {:induction false} LastSize(bits: seq<nat>, i: nat, n: nat)
    requires 1 <= i <= n < |bits| && bits[i] > 0 && forall l :: i < l <= n ==> bits[l] == 0
    ensures |Expand(bits, n)| > 0 && Expand(bits, n)[|Expand(bits, n)| - 1] == i
  {
    if i < n {
      LastSize(bits, i, n - 1);
      assert seq(bits[n], _ => n) == [];
    }
  }

  /** The listed symbols are those counted, without the pseudo-symbol. */
  lemma SymbolsFrom(counts: seq<nat>, codesize: seq<nat>, h: nat)
    requires |counts| == SYMBOLS && Finished(counts, codesize, h) && counts[256] > 0
    requires forall s :: 0 <= s < SYMBOLS ==> codesize[s] <= MAX_CLEN
    ensures var r := BySize(codesize, MAX_CLEN, 256);
      && |r| == Used(counts[..256]) == Used(codesize) - 1
      && AllDistinct(r) && forall x :: 0 <= x < 256 ==> (counts[x] > 0 <==> x in r)
  {
    hide BySize, Used, Space, Pow2, Fib, Sum;
    BySizeFacts(codesize, MAX_CLEN, 256);
    BySizeCount(codesize, MAX_CLEN, 256);
    UsedSame(counts[..256], codesize[..256]);
    UsedSnoc(codesize, 256);
    assert codesize[..257] == codesize;
  }

  lemma {:induction false} UsedSame(a: seq<nat>, b: seq<nat>)
    requires |a| == |b| && forall s :: 0 <= s < |a| ==> (a[s] > 0 <==> b[s] > 0)
    ensures Used(a) == Used(b)
  {
    if a != [] {
      UsedSame(a[..|a| - 1], b[..|b| - 1]);
    }
  }

  /** Counts below the 35th Fibonacci number never need more than 32 bits. */
  lemma NoOverflow(counts: seq<nat>, codesize: seq<nat>, h: nat)
    requires Finished(counts, codesize, h) && Sum(counts) < FIB_35
    ensures h <= MAX_CLEN
  {
    hide Fib, Sum, Space, Pow2;
    FibValue();
    if h > MAX_CLEN {
      FibMonotone(35, h + 2);
    }
  }

  lemma FibValue()
    ensures Fib(35) == FIB_35
  {
    assert Fib(9) == 34 && Fib(10) == 55;
    assert Fib(18) == 2584 && Fib(19) == 4181;
    assert Fib(27) == 196418 && Fib(28) == 317811;
  }

  lemma SpaceAtMaximum(counts: seq<nat>, codesize: seq<nat>, h: nat)
    requires |counts| == SYMBOLS && Finished(counts, codesize, h)
    requires forall s :: 0 <= s < SYMBOLS ==> codesize[s] <= MAX_CLEN
    ensures Space(codesize, MAX_CLEN, SYMBOLS) == Pow2(MAX_CLEN)
  {
    hide Fib, Sum, Space, Pow2;
    if h <= MAX_CLEN {
      SpaceScale(codesize, h, MAX_CLEN - h, SYMBOLS);
      Pow2Sum(h, MAX_CLEN - h);
    } else {
      SpaceScale(codesize, MAX_CLEN, h - MAX_CLEN, SYMBOLS);
      Pow2Sum(MAX_CLEN, h - MAX_CLEN);
      Cancel(Space(codesize, MAX_CLEN, SYMBOLS), Pow2(MAX_CLEN), Pow2(h - MAX_CLEN));
    }
  }

  lemma Cancel(a: nat, b: nat, p: nat)
    requires p >= 1 && a * p == b * p
    ensures a == b
  {
    if a < b {
      MulStrict(a, b, p);
    } else {
      MulStrict(b, a, p);
    }
  }

  /**
    The table lists the real symbols by these sizes; unless a size over 16 had to be shortened, its lengths are
    theirs.
  */
  predicate SizedBy(t: Table, sizes: seq<nat>) {
    && t.WellFormed() && |sizes| == SYMBOLS
    && |t.Sizes()| <= 256 && t.huffval[..|t.Sizes()|] == BySize(sizes, MAX_CLEN, 256)
    && ((forall s :: 0 <= s < SYMBOLS ==> sizes[s] <= 16) ==>
          exists longest :: 1 <= longest <= 16 && t.bits[longest] > 0 && LengthsAre(t.bits, sizes, longest))
  }

  /** As many symbols of each length as there are of that size; one of the longest was that of the pseudo-symbol. */
  predicate LengthsAre(bits: seq<nat>, sizes: seq<nat>, longest: nat)
    requires |bits| == 17 && |sizes| == SYMBOLS
  {
    && (forall l :: 1 <= l <= 16 ==> bits[l] + (if l == longest then 1 else 0) == |OfSize(sizes, l, SYMBOLS)|)
    && (forall l :: longest < l <= 16 ==> bits[l] == 0)
  }

  /**
    Generates the table for given counts of the symbols 0..255; a pseudo-symbol 256 keeps the all-ones code free. The
    sizes found for all of them have the least cost that a prefix code can have.
  */
  method GenOptimalTable(freq: array<nat>, huffval: array<UInt8>) returns (ok: bool, t: Table, ghost sizes: seq<nat>)
    requires freq.Length == SYMBOLS && huffval.Length == 256
    requires 1 <= Used(freq[..256]) <= 254 && Sum(freq[..256]) < LARGE
    modifies freq, huffval
    ensures old(Sum(freq[..256])) + 1 < FIB_35 ==> ok
    ensures ok ==> TableFor(old(freq[..256]), t)
    ensures ok ==> Least(old(freq[..256]) + [1], sizes) && SizedBy(t, sizes)
  {
    hide Sum, Used, Finished, Level, Pow2, Fib, Space, Complete, BySize, OfSize, Expand, Units, Least, SizedBy;
    ghost var uses := freq[..256];
    var codesize, others := new nat[SYMBOLS](_ => 0), new int[SYMBOLS](_ => -1);
    freq[256] := 1;
    ghost var counts := freq[..];
    assert counts[..256] == uses && counts == uses + [1];
    WithPseudo(counts);
    ghost var a := SomeUsed(uses);
    ghost var h := GrowTree(freq, codesize, others, a, 256);
    sizes := codesize[..];
    var bits;
    t := Table([], []);
    FinishedUsed(counts, codesize[..], h);
    ok, bits := CountLengths(codesize);
    if !ok {
      TooLong(counts, codesize[..], h);
      return;
    }
    SpaceAtMaximum(counts, codesize[..], h);
    SymbolsFrom(counts, codesize[..], h);
    ghost var counted := bits[..];
    LimitLengths(bits);
    var i := RemovePseudo(bits);
    SizesFrom(bits[..], i);
    var p := ListSymbols(codesize, huffval);
    t := Table(bits[..17], huffval[..]);
    assert huffval[..][..p] == huffval[..p];
    LengthsFrom(sizes, counted, bits[..], i, t);
  }

  lemma LengthsFrom(sizes: seq<nat>, counted: seq<nat>, bits: seq<nat>, i: nat, t: Table)
    requires |sizes| == SYMBOLS && |counted| == |bits| == MAX_CLEN + 1 && 1 <= i <= 16 && bits[i] > 0
    requires forall l :: 1 <= l <= MAX_CLEN ==> counted[l] == |OfSize(sizes, l, SYMBOLS)|
    requires (forall l :: 16 < l <= MAX_CLEN ==> counted[l] == 0) ==>
      counted[i] > 0 && bits == counted[i := counted[i] - 1]
    requires forall l :: i < l < |bits| ==> bits[l] == 0
    requires t.WellFormed() && t.bits == bits[..17]
    requires |t.Sizes()| <= 256 && t.huffval[..|t.Sizes()|] == BySize(sizes, MAX_CLEN, 256)
    ensures SizedBy(t, sizes)
  {
    hide BySize, OfSize, Expand;
    if forall s :: 0 <= s < SYMBOLS ==> sizes[s] <= 16 {
      forall l | 16 < l <= MAX_CLEN
        ensures counted[l] == 0
      {
        NoneOfSize(sizes, l, SYMBOLS);
      }
      assert LengthsAre(t.bits, sizes, i);
    }
  }

  lemma {:induction false} NoneOfSize(sizes: seq<nat>, l: nat, n: nat)
    requires n <= |sizes| && forall s :: 0 <= s < n ==> sizes[s] != l
    ensures OfSize(sizes, l, n) == []
  {
    if n > 0 {
      NoneOfSize(sizes, l, n - 1);
    }
  }

  lemma WithPseudo(counts: seq<nat>)
    requires |counts| == SYMBOLS && counts[256] == 1
    ensures Sum(counts) == Sum(counts[..256]) + 1 && Used(counts) == Used(counts[..256]) + 1
  {
  }

  lemma {:induction false} SomeUsed(s: seq<nat>) returns (a: nat)
    requires Used(s) >= 1
    ensures a < |s| && s[a] > 0
  {
    a := |s| - 1;
    if s[a] == 0 {
      a := SomeUsed(s[..a]);
    }
  }

  lemma FinishedUsed(counts: seq<nat>, codesize: seq<nat>, h: nat)
    requires |counts| == SYMBOLS && Finished(counts, codesize, h)
    ensures |codesize| == SYMBOLS && Used(codesize) == Used(counts)
  {
    hide Used, Space, Pow2, Fib, Sum;
    UsedSame(counts, codesize);
  }

  lemma TooLong(counts: seq<nat>, codesize: seq<nat>, h: nat)
    requires |counts| == SYMBOLS && Finished(counts, codesize, h)
    requires !(forall s :: 0 <= s < SYMBOLS ==> codesize[s] <= MAX_CLEN)
    ensures Sum(counts) >= FIB_35
  {
    hide Space, Pow2, Fib, Sum;
    if Sum(counts) < FIB_35 {
      NoOverflow(counts, codesize, h);
    }
  }
}
