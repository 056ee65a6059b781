/**
  The forest that Huffman's procedure grows over the 257 symbols, after Rec. ITU-T T.81 section K.2: each tree
  is a chain of its symbols, its weight is held at its first symbol, and only the depths of leaves are kept.
*/
module HuffmanForest {
  import opened Powers

  const SYMBOLS: nat := 257

  function Fib(n: nat): nat {
    if n < 2 then n else Fib(n - 1) + Fib(n - 2)
  }

  lemma {:induction false} FibMonotone(m: nat, n: nat)
    requires m <= n
    ensures Fib(m) <= Fib(n)
  {
    if m < n {
      FibMonotone(m, n - 1);
    }
  }

  function Sum(s: seq<nat>): nat {
    if s == [] then 0 else Sum(s[..|s| - 1]) + s[|s| - 1]
  }

  lemma {:induction false} SumUpdate(s: seq<nat>, t: seq<nat>, i: nat)
    requires i < |s| == |t| && t == s[i := t[i]]
    ensures Sum(t) == Sum(s) - s[i] + t[i] && s[i] <= Sum(s)
  {
    var n := |s| - 1;
    if i == n {
      assert t[..n] == s[..n];
    } else {
      SumUpdate(s[..n], t[..n], i);
    }
  }

  /** How many entries are not zero. */
  function Used(s: seq<nat>): nat {
    if s == [] then 0 else Used(s[..|s| - 1]) + if s[|s| - 1] != 0 then 1 else 0
  }

  /** By symbol: the first symbol of its tree, -1 if it has none. By first symbol: the tree's symbols, and its height. */
  datatype Forest = Forest(root: seq<int>, chain: seq<seq<nat>>, height: seq<nat>) {
    predicate Sized() {
      |root| == |chain| == |height| == SYMBOLS
    }
  }

  /** others leads from each symbol of the chain to the next. */
  predicate Linked(others: seq<int>, chain: seq<nat>) {
    && |chain| > 0 && (forall i :: 0 <= i < |chain| ==> chain[i] < |others|)
    && (forall i :: 0 <= i < |chain| - 1 ==> others[chain[i]] == chain[i + 1])
    && others[chain[|chain| - 1]] == -1
  }

  predicate Distinct(chain: seq<nat>) {
    forall i, j :: 0 <= i < j < |chain| ==> chain[i] != chain[j]
  }

  /** Every symbol with a tree is on the chain of a live symbol. */
  predicate Rooted(f: Forest, freq: seq<nat>)
    requires f.Sized() && |freq| == SYMBOLS
  {
    forall s :: 0 <= s < SYMBOLS && f.root[s] != -1 ==>
      0 <= f.root[s] < SYMBOLS && freq[f.root[s]] > 0 && s in f.chain[f.root[s]]
  }

  /** The links lead from each live symbol through its chain without a cycle. */
  predicate Chained(f: Forest, freq: seq<nat>, others: seq<int>)
    requires f.Sized() && |freq| == |others| == SYMBOLS
  {
    forall r :: 0 <= r < SYMBOLS && freq[r] > 0 ==>
      Linked(others, f.chain[r]) && Distinct(f.chain[r]) && f.chain[r][0] == r
  }

  /** Nothing is on two chains. */
  predicate Owned(f: Forest, freq: seq<nat>)
    requires f.Sized() && |freq| == SYMBOLS
  {
    forall r, i :: 0 <= r < SYMBOLS && freq[r] > 0 && 0 <= i < |f.chain[r]| ==>
      f.chain[r][i] < SYMBOLS && f.root[f.chain[r][i]] == r
  }

  /** The chains are acyclic, start at the live symbols, and share out the symbols that have a tree. */
  predicate Chains(f: Forest, freq: seq<nat>, others: seq<int>) {
    f.Sized() && |freq| == |others| == SYMBOLS && Rooted(f, freq) && Chained(f, freq, others) && Owned(f, freq)
  }

  /** What the tree of c2 becomes part of when it is chained onto the tree of c1. */
  function Joined(f: Forest, c1: nat, c2: nat): (r: Forest)
    requires f.Sized() && c1 < SYMBOLS && c2 < SYMBOLS && c1 != c2
    ensures r.Sized()
  {
    Forest(seq(SYMBOLS, s requires 0 <= s < SYMBOLS => if f.root[s] == c2 then c1 else f.root[s]),
           f.chain[c1 := f.chain[c1] + f.chain[c2]][c2 := []],
           f.height[c1 := 1 + if f.height[c1] > f.height[c2] then f.height[c1] else f.height[c2]])
  }

  function Merged(freq: seq<nat>, c1: nat, c2: nat): (r: seq<nat>)
    requires c1 < |freq| && c2 < |freq|
    ensures |r| == |freq|
  {
    freq[c1 := freq[c1] + freq[c2]][c2 := 0]
  }

  lemma LinkedJoin(others: seq<int>, a: seq<nat>, b: seq<nat>)
    requires Linked(others, a) && Linked(others, b) && Distinct(a) && Distinct(b)
    requires forall i, j :: 0 <= i < |a| && 0 <= j < |b| ==> a[i] != b[j]
    ensures Linked(others[a[|a| - 1] := b[0]], a + b) && Distinct(a + b)
  {
  }

  lemma LinkedElsewhere(others: seq<int>, chain: seq<nat>, x: nat, v: int)
    requires Linked(others, chain) && x < |others| && x !in chain
    ensures Linked(others[x := v], chain)
  {
  }

  lemma LinkedFacts(others: seq<int>, chain: seq<nat>)
    requires Linked(others, chain)
    ensures |chain| > 0 && forall i :: 0 <= i < |chain| ==> chain[i] < |others|
  {
  }

  lemma RootedStep(f: Forest, freq: seq<nat>, c1: nat, c2: nat)
    requires f.Sized() && |freq| == SYMBOLS && Rooted(f, freq)
    requires c1 < SYMBOLS && c2 < SYMBOLS && c1 != c2 && freq[c1] > 0 && freq[c2] > 0
    ensures Rooted(Joined(f, c1, c2), Merged(freq, c1, c2))
  {
    var g, freq' := Joined(f, c1, c2), Merged(freq, c1, c2);
    forall s | 0 <= s < SYMBOLS && g.root[s] != -1
      ensures 0 <= g.root[s] < SYMBOLS && freq'[g.root[s]] > 0 && s in g.chain[g.root[s]]
    {
      assert s in f.chain[f.root[s]];
    }
  }

  lemma OwnedStep(f: Forest, freq: seq<nat>, c1: nat, c2: nat)
    requires f.Sized() && |freq| == SYMBOLS && Owned(f, freq)
    requires c1 < SYMBOLS && c2 < SYMBOLS && c1 != c2 && freq[c1] > 0 && freq[c2] > 0
    ensures Owned(Joined(f, c1, c2), Merged(freq, c1, c2))
  {
    var g, freq' := Joined(f, c1, c2), Merged(freq, c1, c2);
    var a, b := f.chain[c1], f.chain[c2];
    forall r, i | 0 <= r < SYMBOLS && freq'[r] > 0 && 0 <= i < |g.chain[r]|
      ensures g.chain[r][i] < SYMBOLS && g.root[g.chain[r][i]] == r
    {
      if r == c1 && i >= |a| {
        assert f.chain[c2][i - |a|] < SYMBOLS && f.root[f.chain[c2][i - |a|]] == c2;
      } else {
        assert f.chain[r][i] < SYMBOLS && f.root[f.chain[r][i]] == r;
      }
    }
  }

  lemma ChainedStep(f: Forest, freq: seq<nat>, others: seq<int>, c1: nat, c2: nat)
    requires f.Sized() && |freq| == |others| == SYMBOLS && Chained(f, freq, others) && Owned(f, freq)
    requires c1 < SYMBOLS && c2 < SYMBOLS && c1 != c2 && freq[c1] > 0 && freq[c2] > 0
    ensures |f.chain[c1]| > 0 && f.chain[c1][|f.chain[c1]| - 1] < SYMBOLS
    ensures var last := f.chain[c1][|f.chain[c1]| - 1];
      Chained(Joined(f, c1, c2), Merged(freq, c1, c2), others[last := c2])
  {
    hide Linked, Distinct;
    var a, b := f.chain[c1], f.chain[c2];
    LinkedFacts(others, a);
    LinkedFacts(others, b);
    var g, freq', last := Joined(f, c1, c2), Merged(freq, c1, c2), a[|a| - 1];
    forall i, j | 0 <= i < |a| && 0 <= j < |b|
      ensures a[i] != b[j]
    {
      assert f.root[f.chain[c1][i]] == c1 && f.root[f.chain[c2][j]] == c2;
    }
    LinkedJoin(others, a, b);
    forall r | 0 <= r < SYMBOLS && freq'[r] > 0
      ensures Linked(others[last := c2], g.chain[r]) && Distinct(g.chain[r]) && |g.chain[r]| > 0 && g.chain[r][0] == r
    {
      if r != c1 {
        LinkedFacts(others, f.chain[r]);
        assert last !in f.chain[r] by {
          assert f.root[f.chain[c1][|a| - 1]] == c1;
          assert forall i :: 0 <= i < |f.chain[r]| ==> f.root[f.chain[r][i]] == r;
        }
        LinkedElsewhere(others, f.chain[r], last, c2);
      }
    }
  }

  /** Chaining the tree of c2 onto the end of the tree of c1. */
  lemma ChainsStep(f: Forest, freq: seq<nat>, others: seq<int>, c1: nat, c2: nat)
    requires Chains(f, freq, others) && c1 < SYMBOLS && c2 < SYMBOLS && c1 != c2 && freq[c1] > 0 && freq[c2] > 0
    ensures |f.chain[c1]| > 0 && f.chain[c1][|f.chain[c1]| - 1] < SYMBOLS
    ensures var last := f.chain[c1][|f.chain[c1]| - 1];
      Chains(Joined(f, c1, c2), Merged(freq, c1, c2), others[last := c2])
  {
    hide Rooted, Chained, Owned, Joined, Merged;
    RootedStep(f, freq, c1, c2);
    OwnedStep(f, freq, c1, c2);
    ChainedStep(f, freq, others, c1, c2);
  }

  // ---- depths ----

  /** The share of the code space that the symbols of one tree take, in units of 2^-scale. */
  function Share(codesize: seq<nat>, root: seq<int>, r: int, scale: nat, n: nat): nat
    requires n <= |codesize| && n <= |root|
  {
    if n == 0 then 0
    else
      Share(codesize, root, r, scale, n - 1)
      + if root[n - 1] == r && codesize[n - 1] <= scale then Pow2(scale - codesize[n - 1]) else 0
  }

  predicate Below(codesize: seq<nat>, root: seq<int>, r: int, scale: nat)
    requires |codesize| == |root|
  {
    forall s :: 0 <= s < |root| && root[s] == r ==> codesize[s] <= scale
  }

  lemma {:induction false} ShareScale(codesize: seq<nat>, root: seq<int>, r: int, scale: nat, m: nat, n: nat)
    requires n <= |codesize| == |root| && Below(codesize, root, r, scale)
    ensures Share(codesize, root, r, scale + m, n) == Share(codesize, root, r, scale, n) * Pow2(m)
  {
    hide Pow2;
    if n > 0 {
      ShareScale(codesize, root, r, scale, m, n - 1);
      if root[n - 1] == r {
        Pow2Sum(scale - codesize[n - 1], m);
        Distribute(Share(codesize, root, r, scale, n - 1), Pow2(scale - codesize[n - 1]), Pow2(m));
        assert scale + m - codesize[n - 1] == scale - codesize[n - 1] + m;
      }
    }
  }

  /** Every symbol of two trees one level deeper. */
  function Deepened(codesize: seq<nat>, root: seq<int>, c1: nat, c2: nat): (r: seq<nat>)
    requires |codesize| == |root|
    ensures |r| == |codesize|
  {
    seq(|codesize|, s requires 0 <= s < |codesize| => codesize[s] + if root[s] == c1 || root[s] == c2 then 1 else 0)
  }

  lemma {:induction false} ShareJoin(f: Forest, codesize: seq<nat>, c1: nat, c2: nat, scale: nat, n: nat)
    requires f.Sized() && |codesize| == SYMBOLS && c1 < SYMBOLS && c2 < SYMBOLS && c1 != c2 && n <= SYMBOLS
    ensures Share(Deepened(codesize, f.root, c1, c2), Joined(f, c1, c2).root, c1, scale + 1, n)
         == Share(codesize, f.root, c1, scale, n) + Share(codesize, f.root, c2, scale, n)
  {
    hide Pow2;
    if n > 0 {
      ShareJoin(f, codesize, c1, c2, scale, n - 1);
    }
  }

  lemma {:induction false} ShareOther(f: Forest, codesize: seq<nat>, c1: nat, c2: nat, r: nat, scale: nat, n: nat)
    requires f.Sized() && |codesize| == SYMBOLS && c1 < SYMBOLS && c2 < SYMBOLS && c1 != c2 && n <= SYMBOLS
    requires r != c1 && r != c2
    ensures Share(Deepened(codesize, f.root, c1, c2), Joined(f, c1, c2).root, r, scale, n)
         == Share(codesize, f.root, r, scale, n)
  {
    hide Pow2;
    if n > 0 {
      ShareOther(f, codesize, c1, c2, r, scale, n - 1);
    }
  }

  /** No leaf is deeper than its tree is high, and the leaves of each tree take its whole code space. */
  predicate Depths(f: Forest, freq: seq<nat>, codesize: seq<nat>) {
    && f.Sized() && |freq| == |codesize| == SYMBOLS
    && (forall s :: 0 <= s < SYMBOLS && f.root[s] == -1 ==> codesize[s] == 0)
    && (forall r :: 0 <= r < SYMBOLS && freq[r] > 0 ==>
          && Below(codesize, f.root, r, f.height[r])
          && Share(codesize, f.root, r, f.height[r], SYMBOLS) == Pow2(f.height[r]))
  }

  lemma WholeShare(f: Forest, freq: seq<nat>, codesize: seq<nat>, c: nat, h: nat)
    requires Depths(f, freq, codesize) && c < SYMBOLS && freq[c] > 0 && h >= f.height[c]
    ensures Share(codesize, f.root, c, h, SYMBOLS) == Pow2(h)
  {
    hide Pow2, Share;
    var h0 := f.height[c];
    ShareScale(codesize, f.root, c, h0, h - h0, SYMBOLS);
    Pow2Sum(h0, h - h0);
    assert h0 + (h - h0) == h;
  }

  lemma DepthsStep(f: Forest, freq: seq<nat>, codesize: seq<nat>, c1: nat, c2: nat)
    requires Depths(f, freq, codesize) && c1 < SYMBOLS && c2 < SYMBOLS && c1 != c2 && freq[c1] > 0 && freq[c2] > 0
    ensures Depths(Joined(f, c1, c2), Merged(freq, c1, c2), Deepened(codesize, f.root, c1, c2))
  {
    hide Share;
    var g, freq', deeper := Joined(f, c1, c2), Merged(freq, c1, c2), Deepened(codesize, f.root, c1, c2);
    var h := g.height[c1] - 1;
    WholeShare(f, freq, codesize, c1, h);
    WholeShare(f, freq, codesize, c2, h);
    ShareJoin(f, codesize, c1, c2, h, SYMBOLS);
    assert Pow2(h + 1) == 2 * Pow2(h);
    hide Pow2;
    forall r | 0 <= r < SYMBOLS && freq'[r] > 0
      ensures Below(deeper, g.root, r, g.height[r])
        && Share(deeper, g.root, r, g.height[r], SYMBOLS) == Pow2(g.height[r])
    {
      if r != c1 {
        ShareOther(f, codesize, c1, c2, r, f.height[r], SYMBOLS);
      }
    }
  }

  // ---- weights ----

  /** A tree of height h weighs at least Fib(h + 2), and every other tree at least Fib(h + 1). */
  predicate Heavy(f: Forest, freq: seq<nat>) {
    && f.Sized() && |freq| == SYMBOLS
    && (forall r :: 0 <= r < SYMBOLS && freq[r] > 0 ==> freq[r] >= Fib(f.height[r] + 2))
    && (forall r, x :: 0 <= r < SYMBOLS && freq[r] > 0 && 0 <= x < SYMBOLS && freq[x] > 0 && x != r ==>
          freq[x] >= Fib(f.height[r] + 1))
  }

  /** c1 and c2 are two live symbols of least weight. */
  predicate TwoSmallest(freq: seq<nat>, c1: nat, c2: nat) {
    && c1 < |freq| && c2 < |freq| && c1 != c2 && 0 < freq[c1] <= freq[c2]
    && forall x :: 0 <= x < |freq| && freq[x] > 0 && x != c1 ==> freq[c2] <= freq[x]
  }

  lemma FibStep(h: nat)
    ensures Fib(h + 3) == Fib(h + 2) + Fib(h + 1) && Fib(h + 1) <= Fib(h + 2)
  {
  }

  lemma HeavyStep(f: Forest, freq: seq<nat>, c1: nat, c2: nat)
    requires Heavy(f, freq) && TwoSmallest(freq, c1, c2)
    ensures Heavy(Joined(f, c1, c2), Merged(freq, c1, c2))
  {
    hide Fib;
    var g, freq' := Joined(f, c1, c2), Merged(freq, c1, c2);
    FibStep(g.height[c1] - 1);
    forall r, x | 0 <= r < SYMBOLS && freq'[r] > 0 && 0 <= x < SYMBOLS && freq'[x] > 0 && x != r
      ensures freq'[x] >= Fib(g.height[r] + 1)
    {
      if r == c1 {
        assert freq[x] >= freq[c2];
      } else {
        assert freq[x] >= Fib(f.height[r] + 1);
      }
    }
  }

  lemma MergedSum(freq: seq<nat>, c1: nat, c2: nat)
    requires c1 < |freq| && c2 < |freq| && c1 != c2
    ensures Sum(Merged(freq, c1, c2)) == Sum(freq)
  {
    hide Sum;
    var both := freq[c1 := freq[c1] + freq[c2]];
    SumUpdate(freq, both, c1);
    SumUpdate(both, Merged(freq, c1, c2), c2);
  }

  lemma {:induction false} UsedUpdate(s: seq<nat>, t: seq<nat>, i: nat)
    requires i < |s| == |t| && t == s[i := t[i]]
    ensures Used(t) == Used(s) - (if s[i] != 0 then 1 else 0) + (if t[i] != 0 then 1 else 0)
  {
    var n := |s| - 1;
    if i == n {
      assert t[..n] == s[..n];
    } else {
      UsedUpdate(s[..n], t[..n], i);
    }
  }

  lemma MergedUsed(freq: seq<nat>, c1: nat, c2: nat)
    requires c1 < |freq| && c2 < |freq| && c1 != c2 && freq[c1] > 0 && freq[c2] > 0
    ensures Used(Merged(freq, c1, c2)) == Used(freq) - 1
  {
    hide Used;
    var both := freq[c1 := freq[c1] + freq[c2]];
    UsedUpdate(freq, both, c1);
    UsedUpdate(both, Merged(freq, c1, c2), c2);
  }

  lemma {:induction false} UsedPrefix(s: seq<nat>, n: nat)
    requires n <= |s|
    ensures Used(s[..n]) <= Used(s)
  {
    if n == |s| {
      assert s[..n] == s;
    } else {
      UsedPrefix(s[..|s| - 1], n);
      assert s[..|s| - 1][..n] == s[..n];
    }
  }

  lemma UsedSnoc(s: seq<nat>, i: nat)
    requires i < |s|
    ensures Used(s[..i + 1]) == Used(s[..i]) + if s[i] != 0 then 1 else 0
  {
    assert s[..i + 1] == s[..i] + [s[i]];
  }

  lemma {:induction false} EachInSum(s: seq<nat>, i: nat)
    requires i < |s|
    ensures s[i] <= Sum(s)
  {
    if i < |s| - 1 {
      EachInSum(s[..|s| - 1], i);
    }
  }

  /** When one entry is left, it is the sum. */
  lemma {:induction false} OneLeft(s: seq<nat>, r: nat)
    requires r < |s| && forall x :: 0 <= x < |s| && x != r ==> s[x] == 0
    ensures Sum(s) == s[r]
  {
    if r < |s| - 1 {
      OneLeft(s[..|s| - 1], r);
    } else {
      AllZeroSum(s[..|s| - 1]);
    }
  }

  lemma {:induction false} AllZeroSum(s: seq<nat>)
    requires forall x :: 0 <= x < |s| ==> s[x] == 0
    ensures Sum(s) == 0
  {
    if s != [] {
      AllZeroSum(s[..|s| - 1]);
    }
  }

  /** Before the first merge, each symbol in use is a tree of its own. */
  function Seedlings(freq: seq<nat>): (f: Forest)
    requires |freq| == SYMBOLS
    ensures f.Sized()
  {
    Forest(seq(SYMBOLS, s requires 0 <= s < SYMBOLS => if freq[s] > 0 then s else -1),
           seq(SYMBOLS, s requires 0 <= s < SYMBOLS => [s]),
           seq(SYMBOLS, _ => 0))
  }

  lemma {:induction false} SeedShare(codesize: seq<nat>, root: seq<int>, r: nat, n: nat)
    requires n <= |codesize| && n <= |root|
    requires forall s :: 0 <= s < n ==> codesize[s] == 0 && (root[s] == r <==> s == r)
    ensures Share(codesize, root, r, 0, n) == if r < n then 1 else 0
  {
    if n > 0 {
      SeedShare(codesize, root, r, n - 1);
    }
  }

  lemma SeedlingChains(freq: seq<nat>, others: seq<int>)
    requires |freq| == |others| == SYMBOLS && forall s :: 0 <= s < SYMBOLS ==> others[s] == -1
    ensures Chains(Seedlings(freq), freq, others)
  {
    assert Rooted(Seedlings(freq), freq);
  }

  lemma SeedlingDepths(freq: seq<nat>, codesize: seq<nat>)
    requires |freq| == |codesize| == SYMBOLS && forall s :: 0 <= s < SYMBOLS ==> codesize[s] == 0
    ensures Depths(Seedlings(freq), freq, codesize)
  {
    hide Share;
    var f := Seedlings(freq);
    forall r | 0 <= r < SYMBOLS && freq[r] > 0
      ensures Share(codesize, f.root, r, f.height[r], SYMBOLS) == Pow2(f.height[r])
    {
      SeedShare(codesize, f.root, r, SYMBOLS);
    }
  }

  lemma SeedlingsHeavy(freq: seq<nat>)
    requires |freq| == SYMBOLS
    ensures Heavy(Seedlings(freq), freq)
  {
    assert Fib(1) == Fib(2) == 1;
    hide Fib;
  }

  /** A live symbol's chain holds exactly the symbols of its tree. */
  lemma LiveChain(f: Forest, freq: seq<nat>, others: seq<int>, c: nat)
    requires Chains(f, freq, others) && c < SYMBOLS && freq[c] > 0
    ensures f.Sized() && Linked(others, f.chain[c]) && Distinct(f.chain[c]) && f.chain[c][0] == c
    ensures forall s: nat :: s < SYMBOLS ==> (s in f.chain[c] <==> f.root[s] == c)
  {
    hide Linked, Distinct;
    forall s: nat | s < SYMBOLS && s in f.chain[c]
      ensures f.root[s] == c
    {
      var i :| 0 <= i < |f.chain[c]| && f.chain[c][i] == s;
      assert f.root[f.chain[c][i]] == c;
    }
  }

  lemma LinksForward(others: seq<int>, chain: seq<nat>)
    requires Linked(others, chain)
    ensures forall i :: 0 <= i < |chain| - 1 ==> others[chain[i]] >= 0
  {
    forall i | 0 <= i < |chain| - 1
      ensures others[chain[i]] >= 0
    {
      assert others[chain[i]] == chain[i + 1];
    }
  }

  // ---- the finished tree ----

  /** The share of the code space that all symbols with a code take. */
  function Space(codesize: seq<nat>, scale: nat, n: nat): nat
    requires n <= |codesize|
  {
    if n == 0 then 0
    else
      Space(codesize, scale, n - 1)
      + if 0 < codesize[n - 1] <= scale then Pow2(scale - codesize[n - 1]) else 0
  }

  lemma {:induction false} ShareIsSpace(codesize: seq<nat>, root: seq<int>, r: int, scale: nat, n: nat)
    requires n <= |codesize| == |root|
    requires forall s :: 0 <= s < n ==> (root[s] == r <==> codesize[s] > 0)
    ensures Share(codesize, root, r, scale, n) == Space(codesize, scale, n)
  {
    hide Pow2;
    if n > 0 {
      ShareIsSpace(codesize, root, r, scale, n - 1);
    }
  }

  lemma {:induction false} SpaceScale(codesize: seq<nat>, scale: nat, m: nat, n: nat)
    requires n <= |codesize| && forall s :: 0 <= s < n ==> codesize[s] <= scale
    ensures Space(codesize, scale + m, n) == Space(codesize, scale, n) * Pow2(m)
  {
    hide Pow2;
    if n > 0 {
      SpaceScale(codesize, scale, m, n - 1);
      if codesize[n - 1] > 0 {
        Pow2Sum(scale - codesize[n - 1], m);
        Distribute(Space(codesize, scale, n - 1), Pow2(scale - codesize[n - 1]), Pow2(m));
        assert scale + m - codesize[n - 1] == scale - codesize[n - 1] + m;
      }
    }
  }

  /** A leaf at depth zero leaves no room for another. */
  lemma {:induction false} ShareOfTwo(codesize: seq<nat>, root: seq<int>, r: int, scale: nat, s: nat, x: nat, n: nat)
    requires n <= |codesize| == |root| && s < |root| && x < |root| && s != x && root[s] == root[x] == r
    requires codesize[s] == 0 && codesize[x] <= scale
    ensures Share(codesize, root, r, scale, n)
      >= (if s < n then Pow2(scale) else 0) + (if x < n then 1 else 0)
  {
    hide Pow2;
    if n > 0 {
      ShareOfTwo(codesize, root, r, scale, s, x, n - 1);
    }
  }

  /** The outcome: every symbol in use has a code, the codes fill the code space, and long codes need large counts. */
  predicate Finished(counts: seq<nat>, codesize: seq<nat>, h: nat) {
    && |counts| == |codesize| == SYMBOLS
    && (forall s :: 0 <= s < SYMBOLS ==> codesize[s] <= h && (codesize[s] > 0 <==> counts[s] > 0))
    && Space(codesize, h, SYMBOLS) == Pow2(h)
    && Fib(h + 2) <= Sum(counts)
  }

  lemma OneTreeFinishes(f: Forest, counts: seq<nat>, freq: seq<nat>, others: seq<int>, codesize: seq<nat>, c: nat,
                        a: nat, b: nat)
    requires Chains(f, freq, others) && Depths(f, freq, codesize) && Heavy(f, freq) && |counts| == SYMBOLS
    requires Sum(freq) == Sum(counts)
    requires forall s :: 0 <= s < SYMBOLS ==> (f.root[s] == -1 <==> counts[s] == 0)
    requires c < SYMBOLS && forall s :: 0 <= s < SYMBOLS && s != c ==> freq[s] == 0
    requires a < SYMBOLS && b < SYMBOLS && a != b && counts[a] > 0 && counts[b] > 0
    ensures Finished(counts, codesize, f.height[c])
  {
    hide Share, Space, Fib, Sum, Pow2, Linked;
    var h := f.height[c];
    OneLeft(freq, c);
    assert forall s :: 0 <= s < SYMBOLS && f.root[s] != -1 ==> f.root[s] == c;
    assert f.root[a] == c;
    forall s | 0 <= s < SYMBOLS && counts[s] > 0
      ensures codesize[s] > 0
    {
      var x := if s == a then b else a;
      assert f.root[s] == c && f.root[x] == c;
      if codesize[s] == 0 {
        ShareOfTwo(codesize, f.root, c, h, s, x, SYMBOLS);
      }
    }
    ShareIsSpace(codesize, f.root, c, h, SYMBOLS);
  }
}
