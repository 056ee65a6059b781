/**
  Numbers of codes by length, and how many codes the length-limiting step of Rec. ITU-T T.81 section K.2
  leaves at each length.
*/
module LengthCounts {
  import opened Powers
  import opened HuffmanCode
  import opened HuffmanForest

  /** The space that the codes of up to n bits take, in units of 2^-n. */
  function Level(bits: seq<nat>, n: nat): nat
    requires n < |bits|
  {
    if n == 0 then 0 else 2 * Level(bits, n - 1) + bits[n]
  }

  lemma {:induction false} LevelSame(bits: seq<nat>, bits': seq<nat>, n: nat)
    requires n < |bits| && n < |bits'| && forall l :: 1 <= l <= n ==> bits[l] == bits'[l]
    ensures Level(bits, n) == Level(bits', n)
  {
    if n > 0 {
      LevelSame(bits, bits', n - 1);
    }
  }

  /** Beyond m, the same counts keep two codes equal. */
  lemma {:induction false} LevelAbove(bits: seq<nat>, bits': seq<nat>, m: nat, n: nat)
    requires m <= n < |bits| == |bits'| && Level(bits, m) == Level(bits', m)
    requires forall l :: m < l <= n ==> bits[l] == bits'[l]
    ensures Level(bits, n) == Level(bits', n)
  {
    if m < n {
      LevelAbove(bits, bits', m, n - 1);
    }
  }

  lemma TwiceProduct(d: int, p: nat)
    ensures 2 * (d * p) == d * (2 * p)
  {
  }

  /** Without longer codes, the unit can be made coarser. */
  lemma {:induction false} LevelTail(bits: seq<nat>, i: nat, n: nat)
    requires i <= n < |bits| && forall l :: i < l <= n ==> bits[l] == 0
    ensures Level(bits, n) == Level(bits, i) * Pow2(n - i)
  {
    if i < n {
      LevelTail(bits, i, n - 1);
      TwiceProduct(Level(bits, i), Pow2(n - 1 - i));
    }
  }

  /** A complete code has an even number of codes of its greatest length. */
  predicate Complete(bits: seq<nat>, i: nat)
    requires i < |bits|
  {
    Level(bits, i) == Pow2(i) && forall l :: i < l < |bits| ==> bits[l] == 0
  }

  lemma LongestPaired(bits: seq<nat>, i: nat)
    requires 1 <= i < |bits| && Complete(bits, i)
    ensures bits[i] % 2 == 0
    ensures bits[i] == 0 ==> Complete(bits, i - 1)
  {
  }

  /** With so few symbols, codes over 16 bits leave some shorter by two. */
  lemma {:induction false} ShorterExists(bits: seq<nat>, i: nat) returns (j: nat)
    requires 17 <= i < |bits| && Complete(bits, i) && bits[i] < 256 && bits[i - 1] < 256
    ensures 1 <= j <= i - 2 && bits[j] > 0
  {
    Pow2Monotone(17, i);
    assert Pow2(17) == 0x20000 by { Pow2Values(); }
    assert Level(bits, i) == 2 * (2 * Level(bits, i - 2) + bits[i - 1]) + bits[i];
    hide Pow2;
    if forall l :: 1 <= l <= i - 2 ==> bits[l] == 0 {
      EmptyLevel(bits, i - 2);
    }
    j :| 1 <= j <= i - 2 && bits[j] != 0;
  }

  lemma {:induction false} EmptyLevel(bits: seq<nat>, n: nat)
    requires n < |bits| && forall l :: 1 <= l <= n ==> bits[l] == 0
    ensures Level(bits, n) == 0
  {
    if n > 0 {
      EmptyLevel(bits, n - 1);
    }
  }

  /**
    One pair of codes of length i becomes one code a bit shorter, and a code of length j becomes a prefix of two.
  */
  function Shortened(bits: seq<nat>, i: nat, j: nat): (r: seq<nat>)
    requires 1 <= j <= i - 2 && i < |bits| && bits[i] >= 2 && bits[j] >= 1
    ensures |r| == |bits|
  {
    var b1 := bits[i := bits[i] - 2];
    var b2 := b1[i - 1 := b1[i - 1] + 1];
    var b3 := b2[j + 1 := b2[j + 1] + 2];
    b3[j := b3[j] - 1]
  }

  /** A pair of codes takes the space of one code a bit shorter. */
  lemma PairForOne(bits: seq<nat>, bits': seq<nat>, l: nat, n: nat)
    requires 2 <= l <= n < |bits| == |bits'|
    requires bits' == bits[l := bits'[l]][l - 1 := bits'[l - 1]]
    requires bits'[l] + 2 * bits'[l - 1] == bits[l] + 2 * bits[l - 1]
    ensures Level(bits', n) == Level(bits, n)
  {
    LevelSame(bits, bits', l - 2);
    LevelAbove(bits, bits', l, n);
  }

  /** Neither the number of codes nor the space they take changes. */
  lemma ShortenedComplete(bits: seq<nat>, i: nat, j: nat)
    requires 1 <= j <= i - 2 && i < |bits| && bits[i] >= 2 && bits[j] >= 1 && Complete(bits, i)
    ensures Complete(Shortened(bits, i, j), i) && Sum(Shortened(bits, i, j)) == Sum(bits)
    ensures Shortened(bits, i, j)[i] == bits[i] - 2 && Shortened(bits, i, j)[0] == bits[0]
  {
    hide Pow2, Level, Sum;
    var b1 := bits[i := bits[i] - 2];
    var b2 := b1[i - 1 := b1[i - 1] + 1];
    var b3 := b2[j + 1 := b2[j + 1] + 2];
    var b4 := b3[j := b3[j] - 1];
    SumUpdate(bits, b1, i);
    SumUpdate(b1, b2, i - 1);
    SumUpdate(b2, b3, j + 1);
    SumUpdate(b3, b4, j);
    PairForOne(bits, b2, i, i);
    PairForOne(b2, b4, j + 1, i);
  }

  lemma SmallPowers(d: nat)
    requires d >= 1
    ensures Pow2(0) == 1 && Pow2(1) == 2 && Pow2(d) == 2 * Pow2(d - 1)
  {
  }

  lemma UnitsNone()
    ensures Units([], 0) == 0
  {
  }

  /** The expanded lengths take the space that the counts say. */
  lemma {:induction false} ExpandLevel(bits: seq<nat>, l: nat)
    requires l < |bits|
    ensures Units(Expand(bits, l), l) == Level(bits, l)
  {
    hide Pow2, Expand, Units;
    ExpandStep(bits, l);
    if l == 0 {
      UnitsNone();
    } else {
      ExpandLevel(bits, l - 1);
      UnitsScale(Expand(bits, l - 1), l - 1, 1);
      assert Pow2(1) == 2 by { SmallPowers(1); }
      UnitsRepeat(Expand(bits, l - 1), l, bits[l]);
    }
  }

  lemma {:induction false} UnitsRepeat(s: seq<nat>, l: nat, n: nat)
    requires forall i :: 0 <= i < |s| ==> s[i] <= l
    ensures Units(s + seq(n, _ => l), l) == Units(s, l) + n
  {
    if n == 0 {
      assert s + seq(0, _ => l) == s;
    } else {
      UnitsRepeat(s, l, n - 1);
      assert s + seq(n, _ => l) == (s + seq(n - 1, _ => l)) + [l];
      UnitsSnoc(s + seq(n - 1, _ => l), l, l);
    }
  }

  lemma {:induction false} ExpandCount(bits: seq<nat>, l: nat)
    requires l < |bits| && bits[0] == 0
    ensures |Expand(bits, l)| == Sum(bits[..l + 1])
  {
    if l == 0 {
      assert bits[..1] == [0];
    } else {
      ExpandCount(bits, l - 1);
      assert bits[..l + 1] == bits[..l] + [bits[l]];
    }
  }

  lemma {:induction false} SumPrefix(s: seq<nat>, n: nat)
    requires n <= |s| && forall l :: n <= l < |s| ==> s[l] == 0
    ensures Sum(s) == Sum(s[..n])
  {
    if n == |s| {
      assert s[..n] == s;
    } else {
      SumPrefix(s[..|s| - 1], n);
      assert s[..|s| - 1][..n] == s[..n];
    }
  }

  lemma CompleteUpTo(bits: seq<nat>, i: nat, n: nat)
    requires i <= n < |bits| && Complete(bits, i)
    ensures Level(bits, n) == Pow2(n)
  {
    hide Pow2, Level;
    LevelTail(bits, i, n);
    Pow2Sum(i, n - i);
    assert i + (n - i) == n;
  }

  lemma {:induction false} LevelLess(bits: seq<nat>, i: nat, n: nat)
    requires 1 <= i <= n < |bits| && bits[i] > 0
    ensures Level(bits[i := bits[i] - 1], n) + Pow2(n - i) == Level(bits, n)
  {
    if i == n {
      LevelSame(bits, bits[i := bits[i] - 1], n - 1);
    } else {
      LevelLess(bits, i, n - 1);
    }
  }

  /** Taking one code of the greatest length away leaves that much room, and some code of that length. */
  lemma PseudoRemoved(bits: seq<nat>, i: nat)
    requires 1 <= i <= 16 < |bits| && Complete(bits, i) && bits[i] > 0
    ensures bits[i] >= 2
    ensures Level(bits[i := bits[i] - 1], 16) == Pow2(16) - Pow2(16 - i)
  {
    hide Pow2, Level;
    LongestPaired(bits, i);
    CompleteUpTo(bits, i, 16);
    LevelLess(bits, i, 16);
  }

  /** One more code of length l. */
  lemma {:induction false} LevelMore(bits: seq<nat>, l: nat, n: nat)
    requires 1 <= l <= n < |bits|
    ensures Level(bits[l := bits[l] + 1], n) == Level(bits, n) + Pow2(n - l)
  {
    if l == n {
      LevelSame(bits, bits[l := bits[l] + 1], n - 1);
    } else {
      LevelMore(bits, l, n - 1);
    }
  }

  // ---- symbols by length ----

  /** The symbols below n with codes of length l, in order. */
  function OfSize(codesize: seq<nat>, l: nat, n: nat): seq<nat>
    requires n <= |codesize|
  {
    if n == 0 then [] else OfSize(codesize, l, n - 1) + if codesize[n - 1] == l then [n - 1] else []
  }

  /** The symbols below n with codes of up to l bits, shorter codes first. */
  function BySize(codesize: seq<nat>, l: nat, n: nat): seq<nat>
    requires n <= |codesize|
  {
    if l == 0 then [] else BySize(codesize, l - 1, n) + OfSize(codesize, l, n)
  }

  predicate AllDistinct(s: seq<nat>) {
    forall i, j :: 0 <= i < j < |s| ==> s[i] != s[j]
  }

  lemma {:induction false} OfSizeFacts(codesize: seq<nat>, l: nat, n: nat)
    requires n <= |codesize|
    ensures forall x :: x in OfSize(codesize, l, n) <==> 0 <= x < n && codesize[x] == l
    ensures AllDistinct(OfSize(codesize, l, n))
  {
    if n > 0 {
      OfSizeFacts(codesize, l, n - 1);
    }
  }

  /** Each symbol with a code of up to l bits is listed once, and no other. */
  lemma {:induction false} BySizeFacts(codesize: seq<nat>, l: nat, n: nat)
    requires n <= |codesize|
    ensures forall x :: x in BySize(codesize, l, n) <==> 0 <= x < n && 1 <= codesize[x] <= l
    ensures AllDistinct(BySize(codesize, l, n))
  {
    hide OfSize;
    if l > 0 {
      BySizeFacts(codesize, l - 1, n);
      OfSizeFacts(codesize, l, n);
      DistinctSum(BySize(codesize, l - 1, n), OfSize(codesize, l, n));
    }
  }

  lemma DistinctSum(a: seq<nat>, b: seq<nat>)
    requires AllDistinct(a) && AllDistinct(b) && forall x :: x in a ==> x !in b
    ensures AllDistinct(a + b)
  {
    forall i, j | 0 <= i < |a| && 0 <= j < |b|
      ensures a[i] != b[j]
    {
      assert a[i] in a;
    }
  }

  /** Listing by length leaves nobody out: as many symbols are listed as have codes. */
  lemma {:induction false} BySizeCount(codesize: seq<nat>, l: nat, n: nat)
    requires n <= |codesize| && forall s :: 0 <= s < n ==> codesize[s] <= l
    ensures |BySize(codesize, l, n)| == Used(codesize[..n])
    decreases n
  {
    hide BySize;
    if n == 0 {
      BySizeNone(codesize, l);
    } else {
      BySizeCount(codesize, l, n - 1);
      BySizeOneMore(codesize, l, n);
      assert codesize[..n] == codesize[..n - 1] + [codesize[n - 1]];
    }
  }

  lemma {:induction false} BySizeNone(codesize: seq<nat>, l: nat)
    ensures BySize(codesize, l, 0) == []
  {
    if l > 0 {
      BySizeNone(codesize, l - 1);
    }
  }

  lemma {:induction false} BySizeOneMore(codesize: seq<nat>, l: nat, n: nat)
    requires 1 <= n <= |codesize|
    ensures |BySize(codesize, l, n)| == |BySize(codesize, l, n - 1)| + if 1 <= codesize[n - 1] <= l then 1 else 0
  {
    if l > 0 {
      BySizeOneMore(codesize, l - 1, n);
    }
  }
}
