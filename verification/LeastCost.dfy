/**
  Huffman's theorem: merging the two smallest weights again and again gives code lengths of least total cost, among all
  lengths that Kraft's inequality allows, and so among those of all prefix codes.
*/
module LeastCost {
  import opened Powers
  import opened HuffmanForest

  /** The space that the codes of the symbols take, in units of 2^-scale. */
  function Spaces(w: seq<nat>, lens: seq<nat>, scale: nat): (r: seq<nat>)
    requires |w| == |lens|
    ensures |r| == |w|
  {
    seq(|w|, s requires 0 <= s < |w| => if w[s] > 0 && lens[s] <= scale then Pow2(scale - lens[s]) else 0)
  }

  /** Lengths up to scale that codes of which none begins another can have. */
  predicate Allowed(w: seq<nat>, lens: seq<nat>, scale: nat) {
    && |w| == |lens| && (forall s :: 0 <= s < |w| && w[s] > 0 ==> lens[s] <= scale)
    && Sum(Spaces(w, lens, scale)) <= Pow2(scale)
  }

  function Costs(w: seq<nat>, lens: seq<nat>): (r: seq<nat>)
    requires |w| == |lens|
    ensures |r| == |w|
  {
    seq(|w|, s requires 0 <= s < |w| => w[s] * lens[s])
  }

  /** The length of everything coded. */
  function Cost(w: seq<nat>, lens: seq<nat>): nat
    requires |w| == |lens|
  {
    Sum(Costs(w, lens))
  }

  lemma CostUpdate(w: seq<nat>, lens: seq<nat>, i: nat, v: nat)
    requires i < |w| == |lens|
    ensures Cost(w, lens[i := v]) == Cost(w, lens) - w[i] * lens[i] + w[i] * v
  {
    hide Sum;
    SumUpdate(Costs(w, lens), Costs(w, lens)[i := w[i] * v], i);
    assert Costs(w, lens[i := v]) == Costs(w, lens)[i := w[i] * v];
  }

  lemma SpaceUpdate(w: seq<nat>, lens: seq<nat>, scale: nat, i: nat, v: nat)
    requires i < |w| == |lens| && w[i] > 0 && lens[i] <= scale && v <= scale
    ensures Sum(Spaces(w, lens[i := v], scale)) == Sum(Spaces(w, lens, scale)) - Pow2(scale - lens[i]) + Pow2(scale - v)
  {
    hide Sum, Pow2;
    SumUpdate(Spaces(w, lens, scale), Spaces(w, lens, scale)[i := Pow2(scale - v)], i);
    assert Spaces(w, lens[i := v], scale) == Spaces(w, lens, scale)[i := Pow2(scale - v)];
  }

  /** Without codes as long as scale, everything fits half the scale. */
  lemma {:induction false} Halves(a: seq<nat>, b: seq<nat>)
    requires |a| == |b| && forall s :: 0 <= s < |a| ==> a[s] == 2 * b[s]
    ensures Sum(a) == 2 * Sum(b)
  {
    if a != [] {
      Halves(a[..|a| - 1], b[..|b| - 1]);
    }
  }

  lemma ShorterScale(w: seq<nat>, lens: seq<nat>, scale: nat)
    requires scale >= 1 && |w| == |lens| && forall s :: 0 <= s < |w| && w[s] > 0 ==> lens[s] < scale
    ensures Sum(Spaces(w, lens, scale)) == 2 * Sum(Spaces(w, lens, scale - 1))
  {
    hide Sum;
    var a, b := Spaces(w, lens, scale), Spaces(w, lens, scale - 1);
    forall s | 0 <= s < |w|
      ensures a[s] == 2 * b[s]
    {
      if w[s] > 0 {
        assert Pow2(scale - lens[s]) == 2 * Pow2(scale - 1 - lens[s]);
      }
    }
    Halves(a, b);
  }

  /** A symbol that is used. */
  predicate Live(w: seq<nat>, s: int) {
    0 <= s < |w| && w[s] > 0
  }

  /** Giving the longer code to the lighter symbol costs no more. */
  lemma Exchange(w: seq<nat>, lens: seq<nat>, scale: nat, a: nat, z: nat) returns (r: seq<nat>)
    requires Allowed(w, lens, scale) && Live(w, a) && Live(w, z) && a != z && w[a] <= w[z] && lens[a] <= lens[z]
    ensures Allowed(w, r, scale) && Cost(w, r) <= Cost(w, lens)
    ensures r == lens[a := lens[z]][z := lens[a]]
  {
    hide Sum, Pow2, Spaces, Cost;
    var one := lens[a := lens[z]];
    r := one[z := lens[a]];
    CostUpdate(w, lens, a, lens[z]);
    CostUpdate(w, one, z, lens[a]);
    SpaceUpdate(w, lens, scale, a, lens[z]);
    SpaceUpdate(w, one, scale, z, lens[a]);
    Cheaper(w[a], w[z], lens[a], lens[z]);
  }

  lemma Cheaper(a: nat, z: nat, k: nat, l: nat)
    requires a <= z && k <= l
    ensures a * l + z * k <= a * k + z * l
  {
    MulMonotone(a, z, l - k);
    assert a * (l - k) == a * l - a * k && z * (l - k) == z * l - z * k;
  }

  /** Two lightest symbols can have codes of the greatest length, when two symbols have it. */
  lemma LightestLongest(w: seq<nat>, lens: seq<nat>, scale: nat, c1: nat, c2: nat, x: nat, y: nat) returns (r: seq<nat>)
    requires Allowed(w, lens, scale) && TwoSmallest(w, c1, c2)
    requires Live(w, x) && Live(w, y) && x != y && lens[x] == lens[y] == scale
    ensures Allowed(w, r, scale) && Cost(w, r) <= Cost(w, lens) && r[c1] == r[c2] == scale
  {
    hide Sum, Pow2, Spaces, Cost;
    r := lens;
    var other := if x == c1 then y else x;
    if r[c1] != scale {
      var z := if x == c2 then y else x;
      other := if z == x then y else x;
      r := Exchange(w, lens, scale, c1, z);
    }
    if r[c2] != scale {
      r := Exchange(w, r, scale, c2, other);
    }
  }

  /** The lengths for merged weights: the pair's code is one shorter than those of the two. */
  lemma MergePair(w: seq<nat>, lens: seq<nat>, scale: nat, c1: nat, c2: nat)
    requires Allowed(w, lens, scale) && Live(w, c1) && Live(w, c2) && c1 != c2 && lens[c1] == lens[c2] == scale >= 1
    ensures Allowed(Merged(w, c1, c2), lens[c1 := scale - 1], scale)
    ensures Cost(w, lens) == w[c1] + w[c2] + Cost(Merged(w, c1, c2), lens[c1 := scale - 1])
  {
    MergedSpace(w, lens, scale, c1, c2);
    MergedCost(w, lens, scale, c1, c2);
  }

  lemma MergedSpace(w: seq<nat>, lens: seq<nat>, scale: nat, c1: nat, c2: nat)
    requires Allowed(w, lens, scale) && Live(w, c1) && Live(w, c2) && c1 != c2 && lens[c1] == lens[c2] == scale >= 1
    ensures Allowed(Merged(w, c1, c2), lens[c1 := scale - 1], scale)
  {
    assert Pow2(0) == 1 && Pow2(1) == 2;
    hide Sum, Pow2;
    var m, l := Merged(w, c1, c2), lens[c1 := scale - 1];
    var spaces := Spaces(w, lens, scale);
    SumUpdate(spaces, spaces[c1 := 2], c1);
    SumUpdate(spaces[c1 := 2], spaces[c1 := 2][c2 := 0], c2);
    assert Spaces(m, l, scale) == spaces[c1 := 2][c2 := 0];
  }

  lemma MergedCost(w: seq<nat>, lens: seq<nat>, scale: nat, c1: nat, c2: nat)
    requires |w| == |lens| && Live(w, c1) && Live(w, c2) && c1 != c2 && lens[c1] == lens[c2] == scale >= 1
    ensures Cost(w, lens) == w[c1] + w[c2] + Cost(Merged(w, c1, c2), lens[c1 := scale - 1])
  {
    hide Sum;
    var m, l := Merged(w, c1, c2), lens[c1 := scale - 1];
    var both := (w[c1] + w[c2]) * (scale - 1);
    var costs := Costs(w, lens);
    SumUpdate(costs, costs[c1 := both], c1);
    SumUpdate(costs[c1 := both], costs[c1 := both][c2 := 0], c2);
    MergedTerms(w, lens, scale, c1, c2);
    OneLess(w[c1], w[c2], scale);
  }

  lemma MergedTerms(w: seq<nat>, lens: seq<nat>, scale: nat, c1: nat, c2: nat)
    requires |w| == |lens| && c1 < |w| && c2 < |w| && c1 != c2 && scale >= 1
    ensures Costs(Merged(w, c1, c2), lens[c1 := scale - 1])
         == Costs(w, lens)[c1 := (w[c1] + w[c2]) * (scale - 1)][c2 := 0]
  {
  }

  lemma OneLess(a: nat, b: nat, n: nat)
    ensures (a + b) * (n - 1) == a * n + b * n - a - b
  {
  }

  /** Whatever lengths the weights have, the merged weights can have lengths that cost less by the merged weight. */
  lemma {:induction false} MergeSaves(w: seq<nat>, lens: seq<nat>, scale: nat, c1: nat, c2: nat)
      returns (lens': seq<nat>, scale': nat)
    requires Allowed(w, lens, scale) && TwoSmallest(w, c1, c2)
    ensures Allowed(Merged(w, c1, c2), lens', scale')
    ensures Cost(w, lens) >= w[c1] + w[c2] + Cost(Merged(w, c1, c2), lens')
    decreases scale
  {
    hide Sum, Pow2, Spaces, Cost, Merged;
    if x :| Live(w, x) && lens[x] == scale {
      if y :| Live(w, y) && y != x && lens[y] == scale {
        TwoNeedLength(w, lens, scale, x, y);
        var r := LightestLongest(w, lens, scale, c1, c2, x, y);
        MergePair(w, r, scale, c1, c2);
        lens', scale' := r[c1 := scale - 1], scale;
      } else {
        OneIsLongest(w, lens, scale, x, if x == c1 then c2 else c1);
        CostUpdate(w, lens, x, scale - 1);
        MulMonotone(scale - 1, scale, w[x]);
        lens', scale' := MergeSaves(w, lens[x := scale - 1], scale - 1, c1, c2);
      }
    } else {
      NoneIsLongest(w, lens, scale, c1);
      lens', scale' := MergeSaves(w, lens, scale - 1, c1, c2);
    }
  }

  lemma TwoNeedLength(w: seq<nat>, lens: seq<nat>, scale: nat, x: nat, y: nat)
    requires Allowed(w, lens, scale) && Live(w, x) && Live(w, y) && x != y && lens[x] == lens[y] == scale
    ensures scale >= 1
  {
    assert Pow2(0) == 1;
    var spaces := Spaces(w, lens, scale);
    SumUpdate(spaces, spaces[x := 0], x);
    EachInSum(spaces[x := 0], y);
  }

  /** A single longest code can be made shorter. */
  lemma OneIsLongest(w: seq<nat>, lens: seq<nat>, scale: nat, x: nat, y: nat)
    requires Allowed(w, lens, scale) && Live(w, x) && lens[x] == scale && Live(w, y) && y != x
    requires forall s :: Live(w, s) && s != x ==> lens[s] != scale
    ensures scale >= 1 && Allowed(w, lens[x := scale - 1], scale - 1)
  {
    assert Pow2(0) == 1 && Pow2(1) == 2;
    assert lens[y] < scale;
    assert Pow2(scale) == 2 * Pow2(scale - 1);
    hide Sum, Pow2, Spaces;
    SpaceUpdate(w, lens, scale, x, scale - 1);
    ShorterScale(w, lens[x := scale - 1], scale);
  }

  lemma NoneIsLongest(w: seq<nat>, lens: seq<nat>, scale: nat, y: nat)
    requires Allowed(w, lens, scale) && Live(w, y) && forall s :: Live(w, s) ==> lens[s] != scale
    ensures scale >= 1 && Allowed(w, lens, scale - 1)
  {
    assert lens[y] < scale;
    assert Pow2(scale) == 2 * Pow2(scale - 1);
    hide Sum, Pow2, Spaces;
    ShorterScale(w, lens, scale);
  }

  // ---- over all merges ----

  /** Whatever lengths the counts have, they cost at least what has been spent, and some lengths for the weights left. */
  ghost predicate Bound(counts: seq<nat>, w: seq<nat>, spent: nat) {
    forall lens, scale | Allowed(counts, lens, scale) ::
      exists lens', scale' :: Allowed(w, lens', scale') && Cost(counts, lens) >= spent + Cost(w, lens')
  }

  lemma BoundStart(counts: seq<nat>)
    ensures Bound(counts, counts, 0)
  {
    hide Cost, Sum, Spaces;
  }

  lemma BoundStep(counts: seq<nat>, w: seq<nat>, spent: nat, c1: nat, c2: nat)
    requires Bound(counts, w, spent) && TwoSmallest(w, c1, c2)
    ensures Bound(counts, Merged(w, c1, c2), spent + w[c1] + w[c2])
  {
    hide Cost, Spaces, Sum, Pow2, Merged;
    forall lens, scale | Allowed(counts, lens, scale)
      ensures exists lens', scale' ::
        Allowed(Merged(w, c1, c2), lens', scale')
        && Cost(counts, lens) >= spent + w[c1] + w[c2] + Cost(Merged(w, c1, c2), lens')
    {
      var l, s :| Allowed(w, l, s) && Cost(counts, lens) >= spent + Cost(w, l);
      var l', s' := MergeSaves(w, l, s, c1, c2);
    }
  }

  /** No lengths that Kraft's inequality allows cost less. */
  ghost predicate Least(counts: seq<nat>, codesize: seq<nat>) {
    |counts| == |codesize|
    && forall lens, scale | Allowed(counts, lens, scale) :: Cost(counts, lens) >= Cost(counts, codesize)
  }

  lemma BoundEnds(counts: seq<nat>, w: seq<nat>, codesize: seq<nat>)
    requires |counts| == |codesize| && Bound(counts, w, Cost(counts, codesize))
    ensures Least(counts, codesize)
  {
    hide Cost, Spaces, Sum, Pow2;
    forall lens, scale | Allowed(counts, lens, scale)
      ensures |counts| == |lens| && Cost(counts, lens) >= Cost(counts, codesize)
    {
      var l, s :| Allowed(w, l, s) && Cost(counts, lens) >= Cost(counts, codesize) + Cost(w, l);
    }
  }

  // ---- the weights of the trees ----

  /** What the symbols of one tree weigh. */
  function TreeWeight(counts: seq<nat>, root: seq<int>, r: int, n: nat): nat
    requires n <= |counts| && n <= |root|
  {
    if n == 0 then 0 else TreeWeight(counts, root, r, n - 1) + if root[n - 1] == r then counts[n - 1] else 0
  }

  predicate Weighed(f: Forest, counts: seq<nat>, freq: seq<nat>) {
    && f.Sized() && |counts| == |freq| == SYMBOLS
    && forall r :: 0 <= r < SYMBOLS && freq[r] > 0 ==> freq[r] == TreeWeight(counts, f.root, r, SYMBOLS)
  }

  lemma {:induction false} WeightsJoin(f: Forest, counts: seq<nat>, c1: nat, c2: nat, r: nat, n: nat)
    requires f.Sized() && |counts| == SYMBOLS && c1 < SYMBOLS && c2 < SYMBOLS && c1 != c2 && n <= SYMBOLS && r != c2
    ensures TreeWeight(counts, Joined(f, c1, c2).root, r, n)
         == TreeWeight(counts, f.root, r, n) + if r == c1 then TreeWeight(counts, f.root, c2, n) else 0
  {
    if n > 0 {
      WeightsJoin(f, counts, c1, c2, r, n - 1);
    }
  }

  lemma WeighedStep(f: Forest, counts: seq<nat>, freq: seq<nat>, c1: nat, c2: nat)
    requires Weighed(f, counts, freq) && c1 < SYMBOLS && c2 < SYMBOLS && c1 != c2 && freq[c1] > 0 && freq[c2] > 0
    ensures Weighed(Joined(f, c1, c2), counts, Merged(freq, c1, c2))
  {
    hide TreeWeight;
    var m := Merged(freq, c1, c2);
    forall r | 0 <= r < SYMBOLS && m[r] > 0
      ensures m[r] == TreeWeight(counts, Joined(f, c1, c2).root, r, SYMBOLS)
    {
      WeightsJoin(f, counts, c1, c2, r, SYMBOLS);
    }
  }

  /** One level more for two trees costs what they weigh. */
  lemma {:induction false} CostsDeeper(counts: seq<nat>, codesize: seq<nat>, root: seq<int>, c1: nat, c2: nat, n: nat)
    requires |counts| == |codesize| == |root| && n <= |counts| && c1 != c2
    ensures Sum(Costs(counts, Deepened(codesize, root, c1, c2))[..n])
         == Sum(Costs(counts, codesize)[..n]) + TreeWeight(counts, root, c1, n) + TreeWeight(counts, root, c2, n)
  {
    if n > 0 {
      CostsDeeper(counts, codesize, root, c1, c2, n - 1);
      var a, b := Costs(counts, Deepened(codesize, root, c1, c2)), Costs(counts, codesize);
      assert a[..n] == a[..n - 1] + [a[n - 1]] && b[..n] == b[..n - 1] + [b[n - 1]];
      assert counts[n - 1] * (codesize[n - 1] + 1) == counts[n - 1] * codesize[n - 1] + counts[n - 1];
    }
  }

  lemma CostStep(f: Forest, counts: seq<nat>, freq: seq<nat>, codesize: seq<nat>, c1: nat, c2: nat)
    requires Weighed(f, counts, freq) && |codesize| == SYMBOLS
    requires c1 < SYMBOLS && c2 < SYMBOLS && c1 != c2 && freq[c1] > 0 && freq[c2] > 0
    ensures Cost(counts, Deepened(codesize, f.root, c1, c2)) == Cost(counts, codesize) + freq[c1] + freq[c2]
  {
    hide Sum, TreeWeight;
    CostsDeeper(counts, codesize, f.root, c1, c2, SYMBOLS);
    var a, b := Costs(counts, Deepened(codesize, f.root, c1, c2)), Costs(counts, codesize);
    assert a[..SYMBOLS] == a && b[..SYMBOLS] == b;
  }

  lemma {:induction false} SeedWeight(counts: seq<nat>, r: nat, n: nat)
    requires |counts| == SYMBOLS && n <= SYMBOLS && r < SYMBOLS && counts[r] > 0
    ensures TreeWeight(counts, Seedlings(counts).root, r, n) == if r < n then counts[r] else 0
  {
    if n > 0 {
      SeedWeight(counts, r, n - 1);
    }
  }

  lemma SeedlingsWeighed(counts: seq<nat>)
    requires |counts| == SYMBOLS
    ensures Weighed(Seedlings(counts), counts, counts)
  {
    hide TreeWeight;
    forall r | 0 <= r < SYMBOLS && counts[r] > 0
      ensures counts[r] == TreeWeight(counts, Seedlings(counts).root, r, SYMBOLS)
    {
      SeedWeight(counts, r, SYMBOLS);
    }
  }

  lemma NothingSpent(counts: seq<nat>, codesize: seq<nat>)
    requires |counts| == |codesize| && forall s :: 0 <= s < |codesize| ==> codesize[s] == 0
    ensures Cost(counts, codesize) == 0
  {
    AllZeroSum(Costs(counts, codesize));
  }

  // ---- prefix codes ----

  /** No codeword of a used symbol begins that of another. */
  ghost predicate PrefixCode(w: seq<nat>, codes: seq<seq<Bit>>) {
    |w| == |codes| && forall i, j :: Live(w, i) && Live(w, j) && i != j ==> !(codes[i] <= codes[j])
  }

  function LengthsOf(codes: seq<seq<Bit>>): (r: seq<nat>)
    ensures |r| == |codes|
  {
    seq(|codes|, s requires 0 <= s < |codes| => |codes[s]|)
  }

  /** The space of the codewords that begin with p. */
  function Taken(w: seq<nat>, codes: seq<seq<Bit>>, p: seq<Bit>, scale: nat, n: nat): nat
    requires n <= |w| == |codes|
  {
    if n == 0 then 0
    else
      Taken(w, codes, p, scale, n - 1)
      + if w[n - 1] > 0 && |codes[n - 1]| <= scale && p <= codes[n - 1] then Pow2(scale - |codes[n - 1]|) else 0
  }

  lemma {:induction false} TakenByOne(w: seq<nat>, codes: seq<seq<Bit>>, scale: nat, s: nat, n: nat)
    requires PrefixCode(w, codes) && Live(w, s) && |codes[s]| <= scale && n <= |w|
    ensures Taken(w, codes, codes[s], scale, n) == if s < n then Pow2(scale - |codes[s]|) else 0
  {
    hide Pow2;
    if n > 0 {
      TakenByOne(w, codes, scale, s, n - 1);
      if n - 1 != s {
        assert Live(w, n - 1) ==> !(codes[s] <= codes[n - 1]);
      }
    }
  }

  lemma {:induction false} TakenByNone(w: seq<nat>, codes: seq<seq<Bit>>, p: seq<Bit>, scale: nat, n: nat)
    requires n <= |w| == |codes| && |p| == scale && forall s :: Live(w, s) ==> codes[s] != p
    ensures Taken(w, codes, p, scale, n) == 0
  {
    hide Pow2;
    if n > 0 {
      TakenByNone(w, codes, p, scale, n - 1);
    }
  }

  lemma {:induction false} TakenSplits(w: seq<nat>, codes: seq<seq<Bit>>, p: seq<Bit>, scale: nat, n: nat)
    requires n <= |w| == |codes| && forall s :: Live(w, s) ==> codes[s] != p
    ensures Taken(w, codes, p, scale, n) == Taken(w, codes, p + [0], scale, n) + Taken(w, codes, p + [1], scale, n)
  {
    hide Pow2;
    if n > 0 {
      TakenSplits(w, codes, p, scale, n - 1);
      var c := codes[n - 1];
      if w[n - 1] > 0 && p <= c {
        assert Live(w, n - 1) && |c| > |p|;
        assert c[..|p| + 1] == p + [c[|p|]];
      }
    }
  }

  /** Kraft's inequality, for the codewords that begin with p. */
  lemma {:induction false} Kraft(w: seq<nat>, codes: seq<seq<Bit>>, p: seq<Bit>, scale: nat)
    requires PrefixCode(w, codes) && |p| <= scale && forall s :: Live(w, s) ==> |codes[s]| <= scale
    ensures Taken(w, codes, p, scale, |w|) <= Pow2(scale - |p|)
    decreases scale - |p|
  {
    if s :| Live(w, s) && codes[s] == p {
      TakenByOne(w, codes, scale, s, |w|);
    } else if |p| == scale {
      TakenByNone(w, codes, p, scale, |w|);
    } else {
      Kraft(w, codes, p + [0], scale);
      Kraft(w, codes, p + [1], scale);
      TakenSplits(w, codes, p, scale, |w|);
    }
  }

  lemma {:induction false} AllTaken(w: seq<nat>, codes: seq<seq<Bit>>, scale: nat, n: nat)
    requires n <= |w| == |codes|
    ensures Taken(w, codes, [], scale, n) == Sum(Spaces(w, LengthsOf(codes), scale)[..n])
  {
    hide Pow2;
    if n > 0 {
      AllTaken(w, codes, scale, n - 1);
      var spaces := Spaces(w, LengthsOf(codes), scale);
      assert spaces[..n] == spaces[..n - 1] + [spaces[n - 1]];
    }
  }

  /** Every prefix code costs at least the least cost. */
  lemma LeastOfPrefixCodes(counts: seq<nat>, codesize: seq<nat>, codes: seq<seq<Bit>>, scale: nat)
    requires Least(counts, codesize) && PrefixCode(counts, codes)
    requires forall s :: Live(counts, s) ==> |codes[s]| <= scale
    ensures Cost(counts, LengthsOf(codes)) >= Cost(counts, codesize)
  {
    hide Cost, Sum, Pow2, Spaces, Taken;
    Kraft(counts, codes, [], scale);
    AllTaken(counts, codes, scale, |counts|);
    var spaces := Spaces(counts, LengthsOf(codes), scale);
    assert spaces[..|counts|] == spaces;
    assert Allowed(counts, LengthsOf(codes), scale);
  }
}
