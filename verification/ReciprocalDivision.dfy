/** Quantization by reciprocals: flss, compute_reciprocal, the divisor tables and quantize of jcdctmgr.c. */
module ReciprocalDivision {
  import opened Powers
  import opened Coefficients

  const DCTSIZE2: nat := 64

  /** The word sizes that DCTELEM is built with. */
  predicate WordSize(w: nat) {
    w == 16 || w == 32
  }

  /** The number of significant bits, by binary search. */
  method Flss(val0: nat) returns (bit: nat)
    requires val0 < 0x10000
    ensures val0 == 0 ==> bit == 0
    ensures val0 > 0 ==> 1 <= bit <= 16 && Pow2(bit - 1) <= val0 < Pow2(bit)
  {
    bit := 16;
    var val := val0;
    if val == 0 {
      return 0;
    }
    hide Pow2;
    SearchStart();
    if val < 0x100 {
      SearchStep(val0, bit, val, 8);
      bit := bit - 8;
      val := val * 0x100;
    }
    if val < 0x1000 {
      SearchStep(val0, bit, val, 4);
      bit := bit - 4;
      val := val * 0x10;
    }
    if val < 0x4000 {
      SearchStep(val0, bit, val, 2);
      bit := bit - 2;
      val := val * 4;
    }
    if val < 0x8000 {
      SearchStep(val0, bit, val, 1);
      bit := bit - 1;
      val := val * 2;
    }
    SearchEnd(val0, bit, val);
  }

  lemma SearchStart()
    ensures Pow2(0) == 1 && Pow2(1) == 2 && Pow2(2) == 4 && Pow2(4) == 0x10 && Pow2(8) == 0x100 && Pow2(16) == 0x10000
  {
    Pow2Values();
  }

  /** Shifting left by n, when the n upper bits are clear. */
  lemma SearchStep(val0: nat, bit: nat, val: nat, n: nat)
    requires n < bit <= 16 && val0 > 0 && val == val0 * Pow2(16 - bit) && val < Pow2(16 - n)
    ensures val * Pow2(n) == val0 * Pow2(16 - (bit - n)) && val * Pow2(n) < 0x10000
  {
    hide Pow2;
    Pow2Sum(16 - bit, n);
    Pow2Sum(16 - n, n);
    Pow2Values();
    assert 16 - bit + n == 16 - (bit - n) && 16 - n + n == 16;
    assert val0 * Pow2(16 - bit) * Pow2(n) == val0 * (Pow2(16 - bit) * Pow2(n));
    MulStrict(val, Pow2(16 - n), Pow2(n));
  }

  lemma SearchEnd(val0: nat, bit: nat, val: nat)
    requires 1 <= bit <= 16 && val == val0 * Pow2(16 - bit) && 0x8000 <= val < 0x10000
    ensures Pow2(bit - 1) <= val0 < Pow2(bit)
  {
    hide Pow2;
    Pow2Sum(bit, 16 - bit);
    Pow2Sum(bit - 1, 16 - bit);
    Pow2Values();
    assert bit + (16 - bit) == 16 && bit - 1 + (16 - bit) == 15;
    MulStrict(val0, Pow2(bit), Pow2(16 - bit));
    MulStrict(Pow2(bit - 1), val0, Pow2(16 - bit));
  }

  // ---- DCTELEM, UDCTELEM, and division by multiplication ----

  /** A w-bit word read as a signed number, and back. */
  function Signed(w: nat, u: nat): int
    requires w > 0
  {
    if u >= Pow2(w - 1) then u - Pow2(w) else u
  }

  function Unsigned(w: nat, v: int): int {
    if v < 0 then v + Pow2(w) else v
  }

  /** The quotient of a magnitude, to the nearest. */
  function Rounded(x: int, d: nat): int
    requires d > 0
  {
    if x < 0 then -((-x + d / 2) / d) else (x + d / 2) / d
  }

  /** What a divisor is replaced by: multiply with recip after adding corr, then shift right by shift + w. */
  datatype Reciprocal = Reciprocal(recip: nat, corr: nat, shift: int)

  /** It fits the words it is kept in, and divides every magnitude that DCTELEM can have, with rounding. */
  ghost predicate Divides(w: nat, q: Reciprocal, d: nat) {
    && WordSize(w) && 1 <= d < 0x10000
    && q.recip < Pow2(w) && q.corr < Pow2(w) && 0 <= q.shift + w <= w + 15
    && forall x: nat :: x < Pow2(w - 1) ==> DividesOne(w, q, d, x)
  }

  /** Neither the sum nor the product overflows, and the shifted product is the rounded quotient. */
  predicate DividesOne(w: nat, q: Reciprocal, d: nat, x: nat) {
    && d > 0 && q.shift + w >= 0
    && x + q.corr < Pow2(w) && (x + q.corr) * q.recip < Pow2(2 * w)
    && (x + q.corr) * q.recip / Pow2(q.shift + w) == (x + d / 2) / d
  }

  /** The reciprocal of d, when big is 2 to the power of the word size plus b, and 2^b is the top bit of d. */
  function Approximate(w: nat, b: nat, d: nat): Reciprocal
    requires d > 0
  {
    var fq, fr := Pow2(w + b) / d, Pow2(w + b) % d;
    if fr == 0 then Reciprocal(fq / 2, d / 2, b - 1)
    else if fr <= d / 2 then Reciprocal(fq, d / 2 + 1, b)
    else Reciprocal(fq + 1, d / 2, b)
  }

  /** A product that lies between two multiples of big, when multiplied by d, is between their quotients. */
  lemma QuotientBetween(n: nat, d: nat, p: nat, big: nat)
    requires d > 0 && n * big <= p * d < n * big + big
    ensures big > 0 && p / big == n / d
  {
    var q := n / d;
    assert q * d <= n < q * d + d == (q + 1) * d;
    MulMonotone(q * d, n, big);
    MulMonotone(n + 1, (q + 1) * d, big);
    assert (n + 1) * big == n * big + big && (q + 1) * big == q * big + big;
    assert q * d * big == q * big * d && (q + 1) * d * big == (q + 1) * big * d;
    MulStrict(q * big, p, d);
    MulStrict(p, (q + 1) * big, d);
    DivModUnique(p, q, p - q * big, big);
  }

  /** The quotient from a reciprocal that was rounded down, with the correction in the sum. */
  lemma RoundedDown(n: nat, sum: nat, d: nat, f: nat, fr: nat, big: nat)
    requires d > 0 && f * d + fr == big && 0 < fr && sum * fr <= big && sum == n + 1
    ensures big > 0 && sum * f / big == n / d
  {
    assert sum * f * d == sum * (f * d);
    assert sum * (big - fr) == n * big + big - sum * fr;
    assert sum * fr > 0;
    QuotientBetween(n, d, sum * f, big);
  }

  /** The quotient from a reciprocal that was rounded up. */
  lemma RoundedUp(n: nat, d: nat, f: nat, e: nat, big: nat)
    requires d > 0 && f * d == big + e && n * e < big
    ensures n * f / big == n / d
  {
    assert n * f * d == n * (f * d);
    assert n * (big + e) == n * big + n * e;
    QuotientBetween(n, d, n * f, big);
  }

  /** A divisor of a power of two is one itself. */
  lemma {:induction false} PowerDivisor(d: nat, f: nat, n: nat) returns (k: nat)
    requires d * f == Pow2(n)
    ensures d == Pow2(k)
  {
    if n == 0 {
      if d >= 2 && f >= 1 {
        MulMonotone(2, d, f);
      }
      k := 0;
    } else if d % 2 == 0 {
      assert d == 2 * (d / 2) && d * f == 2 * (d / 2 * f);
      k := PowerDivisor(d / 2, f, n - 1);
      k := k + 1;
    } else {
      OddTimes(d, f, Pow2(n - 1));
      k := PowerDivisor(d, f / 2, n - 1);
    }
  }

  lemma OddTimes(d: nat, f: nat, p: nat)
    requires d % 2 == 1 && d * f == 2 * p
    ensures d * (f / 2) == p
  {
    if f % 2 == 1 {
      TimesOdd(d / 2, f);
    } else {
      TimesEven(d, f / 2);
    }
  }

  lemma TimesOdd(k: nat, f: nat)
    ensures (2 * k + 1) * f == 2 * (k * f) + f
  {
  }

  lemma TimesEven(d: nat, h: nat)
    ensures d * (2 * h) == 2 * (d * h)
  {
  }

  lemma Between(b: nat, k: nat)
    requires Pow2(b) <= Pow2(k) < Pow2(b + 1)
    ensures k == b
  {
    hide Pow2;
    if k < b {
      assert Pow2(k + 1) == 2 * Pow2(k) by {
        DoublePower(k);
      }
      Pow2Monotone(k + 1, b);
    } else if k > b {
      Pow2Monotone(b + 1, k);
    }
  }

  lemma DoublePower(n: nat)
    ensures Pow2(n + 1) == 2 * Pow2(n)
  {
  }

  lemma WordValues(w: nat)
    requires WordSize(w)
    ensures Pow2(w) == 2 * Pow2(w - 1) && Pow2(w - 1) >= 0x8000
  {
    RegisterSize();
    DoublePower(w - 1);
    hide Pow2;
    Pow2Values();
  }

  lemma CancelFactor(n: nat, d: nat, p: nat)
    requires d > 0 && p > 0
    ensures p * d > 0 && n * p / (p * d) == n / d
  {
    MulMonotone(1, p, d);
    var q, s := n / d, n % d;
    assert n * p == q * (p * d) + s * p by {
      assert n == q * d + s;
    }
    MulMonotone(s + 1, d, p);
    DivModUnique(n * p, q, s * p, p * d);
  }

  /** The reciprocal of a divisor that is a power of two. */
  lemma PowerCase(w: nat, b: nat, d: nat, x: nat)
    requires WordSize(w) && 1 <= b <= 15 && Pow2(b) <= d < Pow2(b + 1) && d < 0x10000 && x < Pow2(w - 1)
    requires Pow2(w + b) % d == 0
    ensures d == Pow2(b) && Pow2(w + b) / d == Pow2(w)
    ensures DividesOne(w, Reciprocal(Pow2(w - 1), d / 2, b - 1), d, x)
  {
    hide Pow2;
    var fq := Pow2(w + b) / d;
    assert Pow2(w + b) == fq * d;
    var k := PowerDivisor(d, fq, w + b);
    Between(b, k);
    Pow2Sum(w, b);
    Pow2Sum(w - 1, b);
    DivModUnique(Pow2(w + b), Pow2(w), 0, d);
    WordValues(w);
    assert b - 1 + w == w - 1 + b;
    CancelFactor(x + d / 2, d, Pow2(w - 1));
    ProductFits(w, x + d / 2, Pow2(w - 1));
  }

  lemma ProductFits(w: nat, n: nat, recip: nat)
    requires n < Pow2(w) && recip < Pow2(w)
    ensures n * recip < Pow2(2 * w)
  {
    hide Pow2;
    Pow2Sum(w, w);
    MulMonotone(n, Pow2(w), recip);
    MulStrict(recip, Pow2(w), Pow2(w));
  }

  /** The reciprocal of another divisor, rounded down: word is 2^w, and p the top bit of d. */
  lemma DownCase(n: nat, sum: nat, d: nat, f: nat, fr: nat, word: nat, p: nat)
    requires p < d < 2 * p && f * d + fr == word * p && 0 < fr <= d / 2 && sum == n + 1 < word
    ensures f < word && word * p > 0 && sum * f / (word * p) == n / d
  {
    SmallError(sum, fr, word, p);
    RecipFits(f, d, 0, word, p);
    RoundedDown(n, sum, d, f, fr, word * p);
  }

  /** The same, rounded up. */
  lemma UpCase(n: nat, d: nat, f: nat, e: nat, word: nat, p: nat)
    requires p < d < 2 * p && f * d == word * p + e && e <= d / 2 && n < word && d <= word
    ensures f < word && word * p > 0 && n * f / (word * p) == n / d
  {
    SmallError(n, e, word, p);
    RecipFits(f, d, e, word, p);
    RoundedUp(n, d, f, e, word * p);
  }

  /** The powers of two that the other cases are about. */
  lemma CasePowers(w: nat, b: nat, d: nat, x: nat)
    requires WordSize(w) && 1 <= b <= 15 && Pow2(b) <= d < Pow2(b + 1) && d < 0x10000 && x < Pow2(w - 1)
    requires Pow2(w + b) % d != 0
    ensures Pow2(w + b) == Pow2(w) * Pow2(b) && Pow2(b) < d < 2 * Pow2(b)
    ensures x + d / 2 + 1 < Pow2(w) && d <= Pow2(w)
  {
    hide Pow2;
    WordValues(w);
    Pow2Sum(w, b);
    DoublePower(b);
    if d == Pow2(b) {
      DivModUnique(Pow2(w + b), Pow2(w), 0, d);
    }
  }

  lemma OtherCase(w: nat, b: nat, d: nat, x: nat)
    requires WordSize(w) && 1 <= b <= 15 && Pow2(b) <= d < Pow2(b + 1) && d < 0x10000 && x < Pow2(w - 1)
    requires Pow2(w + b) % d != 0
    ensures var q := Approximate(w, b, d); q.recip < Pow2(w) && DividesOne(w, q, d, x)
  {
    hide Pow2;
    CasePowers(w, b, d, x);
    var fq, fr := Pow2(w + b) / d, Pow2(w + b) % d;
    DivModParts(Pow2(w + b), d);
    var sum := x + Approximate(w, b, d).corr;
    if fr <= d / 2 {
      DownCase(x + d / 2, sum, d, fq, fr, Pow2(w), Pow2(b));
      ProductFits(w, sum, fq);
    } else {
      TimesNext(fq, d);
      UpCase(sum, d, fq + 1, d - fr, Pow2(w), Pow2(b));
      ProductFits(w, sum, fq + 1);
    }
  }

  lemma DivModParts(a: nat, d: nat)
    requires d > 0
    ensures a / d * d + a % d == a
  {
  }

  lemma TimesNext(f: nat, d: nat)
    ensures (f + 1) * d == f * d + d
  {
  }

  lemma SmallError(n: nat, e: nat, word: nat, p: nat)
    requires n <= word && e <= p && 0 < word
    ensures n * e <= word * p && (n < word && 0 < p ==> n * e < word * p)
  {
    MulMonotone(n, word, e);
    MulMonotone(e, p, word);
    if n < word && 0 < p {
      MulMonotone(n + 1, word, e);
      if e == 0 {
        MulMonotone(1, word, p);
      }
    }
  }

  lemma RecipFits(f: nat, d: nat, e: nat, word: nat, p: nat)
    requires f * d <= word * p + e && d > p && e < word
    ensures f < word
  {
    if f >= word {
      MulMonotone(word, f, d);
      MulMonotone(p + 1, d, word);
    }
  }

  /** The approximation divides exactly, whatever the divisor. */
  lemma ApproximateDivides(w: nat, b: nat, d: nat)
    requires WordSize(w) && 1 <= b <= 15 && Pow2(b) <= d < Pow2(b + 1) && d < 0x10000
    ensures Divides(w, Approximate(w, b, d), d)
  {
    hide Pow2, DividesOne;
    var q := Approximate(w, b, d);
    WordValues(w);
    forall x: nat | x < Pow2(w - 1)
      ensures DividesOne(w, q, d, x)
    {
      ApproximateOne(w, b, d, x);
    }
    ApproximateOne(w, b, d, 0);
    CorrectionFits(w, b, d);
  }

  lemma ApproximateOne(w: nat, b: nat, d: nat, x: nat)
    requires WordSize(w) && 1 <= b <= 15 && Pow2(b) <= d < Pow2(b + 1) && d < 0x10000 && x < Pow2(w - 1)
    ensures var q := Approximate(w, b, d); q.recip < Pow2(w) && DividesOne(w, q, d, x)
  {
    hide Pow2, DividesOne;
    WordValues(w);
    if Pow2(w + b) % d == 0 {
      PowerCase(w, b, d, x);
    } else {
      OtherCase(w, b, d, x);
    }
  }

  lemma CorrectionFits(w: nat, b: nat, d: nat)
    requires WordSize(w) && 1 <= b <= 15 && 0 < d < 0x10000
    ensures var q := Approximate(w, b, d); q.corr < Pow2(w) && 0 <= q.shift + w <= w + 15
  {
    hide Pow2;
    WordValues(w);
  }

  // ---- the tables ----

  /** The four tables of 64 entries: reciprocals, corrections, scales for vector instructions, and shifts. */
  function ReciprocalAt(w: nat, dtbl: seq<int>, i: nat): Reciprocal
    requires |dtbl| == 4 * DCTSIZE2 && i < DCTSIZE2 && InWord(w, dtbl[i]) && InWord(w, dtbl[DCTSIZE2 + i])
  {
    Reciprocal(Unsigned(w, dtbl[i]), Unsigned(w, dtbl[DCTSIZE2 + i]), dtbl[3 * DCTSIZE2 + i])
  }

  predicate InWord(w: nat, v: int) {
    0 - Pow2(w) <= v
  }

  ghost predicate DividesAt(w: nat, dtbl: seq<int>, i: nat, d: nat) {
    && |dtbl| == 4 * DCTSIZE2 && i < DCTSIZE2 && InWord(w, dtbl[i]) && InWord(w, dtbl[DCTSIZE2 + i])
    && Divides(w, ReciprocalAt(w, dtbl, i), d)
  }

  lemma WordRoundTrip(w: nat, u: nat)
    requires w > 0 && u < Pow2(w)
    ensures Unsigned(w, Signed(w, u)) == u && InWord(w, Signed(w, u))
  {
    hide Pow2;
  }

  lemma UnitDivides(w: nat)
    requires WordSize(w)
    ensures Divides(w, Reciprocal(1, 0, 0 - w), 1) && Signed(w, 1) == 1 && Signed(w, 0) == 0
  {
    hide Pow2;
    WordValues(w);
    assert Pow2(0) == 1 by {
      SearchStart();
    }
    var q := Reciprocal(1, 0, 0 - w);
    forall x: nat | x < Pow2(w - 1)
      ensures DividesOne(w, q, 1, x)
    {
      ProductFits(w, x, 1);
    }
  }

  /** compute_reciprocal; the result is false when vector instructions cannot use the values. */
  method ComputeReciprocal(w: nat, divisor: nat, dtbl: array<int>, i: nat) returns (ok: bool)
    requires WordSize(w) && 1 <= divisor < 0x10000 && dtbl.Length == 4 * DCTSIZE2 && i < DCTSIZE2
    modifies dtbl
    ensures DividesAt(w, dtbl[..], i, divisor)
    ensures forall k :: 0 <= k < 4 * DCTSIZE2 && k % DCTSIZE2 != i ==> dtbl[k] == old(dtbl[k])
    ensures ok <==> divisor > (if w == 16 then 2 else 1)
  {
    hide Pow2, Divides, DividesAt, Signed;
    if divisor == 1 {
      UnitDivides(w);
      dtbl[i], dtbl[DCTSIZE2 + i], dtbl[2 * DCTSIZE2 + i], dtbl[3 * DCTSIZE2 + i] := 1, 0, 1, 0 - w;
      StoredDivides(w, dtbl[..], i, Reciprocal(1, 0, 0 - w), 1);
      return false;
    }
    var b := Flss(divisor);
    TopBit(divisor, b);
    b := b - 1;
    ApproximateDivides(w, b, divisor);
    PowerFacts(w, b, divisor);
    var r := w + b;
    var fq, fr := Pow2(r) / divisor, Pow2(r) % divisor;
    var c := divisor / 2;
    if fr == 0 {
      fq := fq / 2;
      r := r - 1;
    } else if fr <= divisor / 2 {
      c := c + 1;
    } else {
      fq := fq + 1;
    }
    ghost var q := Approximate(w, b, divisor);
    assert q == Reciprocal(fq, c, r - w);
    dtbl[i] := Signed(w, fq);
    dtbl[DCTSIZE2 + i] := Signed(w, c);
    dtbl[2 * DCTSIZE2 + i] := if w == 16 then Signed(w, Pow2(2 * w - r) % Pow2(w)) else 1;
    dtbl[3 * DCTSIZE2 + i] := r - w;
    StoredDivides(w, dtbl[..], i, q, divisor);
    ok := r > 16;
  }

  lemma StoredDivides(w: nat, dtbl: seq<int>, i: nat, q: Reciprocal, d: nat)
    requires Divides(w, q, d) && |dtbl| == 4 * DCTSIZE2 && i < DCTSIZE2
    requires dtbl[i] == Signed(w, q.recip) && dtbl[DCTSIZE2 + i] == Signed(w, q.corr) && dtbl[3 * DCTSIZE2 + i] == q.shift
    ensures DividesAt(w, dtbl, i, d)
  {
    hide Pow2, DividesOne, Signed, Unsigned, InWord;
    WordRoundTrip(w, q.recip);
    WordRoundTrip(w, q.corr);
  }

  /** A divisor over 1 has at least two bits. */
  lemma TopBit(d: nat, bit: nat)
    requires 2 <= d < 0x10000 && 1 <= bit <= 16 && Pow2(bit - 1) <= d < Pow2(bit)
    ensures bit >= 2
  {
    hide Pow2;
    SearchStart();
  }

  /** Only for a power of two is there no remainder, and only 2 needs no more than 16 bits of shift in short words. */
  lemma PowerFacts(w: nat, b: nat, d: nat)
    requires WordSize(w) && 1 <= b <= 15 && Pow2(b) <= d < Pow2(b + 1) && d < 0x10000
    ensures Pow2(w + b) % d == 0 ==> d == Pow2(b)
    ensures w == 16 && b == 1 ==> d == 2 || d == 3
    ensures d == 2 ==> b == 1 && Pow2(w + b) % d == 0
    ensures w == 16 && d == 3 ==> Pow2(w + b) % d != 0
  {
    SmallPowers(b);
    hide Pow2;
    WordValues(w);
    if Pow2(w + b) % d == 0 {
      PowerCase(w, b, d, 0);
    }
    if d == 2 {
      DoublePower(w);
      DivModUnique(Pow2(w + 1), Pow2(w), 0, 2);
    }
  }

  lemma SmallPowers(b: nat)
    ensures b >= 2 ==> Pow2(b) >= 4
    ensures Pow2(1) == 2 && Pow2(2) == 4
  {
    if b >= 2 {
      Pow2Monotone(2, b);
    }
  }

  // ---- quantization ----

  /** Quantizes a block of DCT output. */
  method Quantize(w: nat, coefBlock: array<Coef>, divisors: array<int>, workspace: array<int>, ghost ds: seq<nat>)
    requires WordSize(w) && coefBlock.Length == workspace.Length == |ds| == DCTSIZE2
    requires coefBlock as object != workspace && coefBlock as object != divisors
    requires forall i :: 0 <= i < DCTSIZE2 ==> DividesAt(w, divisors[..], i, ds[i])
    requires forall i :: 0 <= i < DCTSIZE2 ==> Abs(workspace[i]) < Pow2(w - 1)
    modifies coefBlock
    ensures forall i :: 0 <= i < DCTSIZE2 ==> ds[i] > 0 && coefBlock[i] == ToCoef(Rounded(workspace[i], ds[i]))
  {
    hide Pow2, DividesAt, Rounded, ToCoef;
    for i := 0 to DCTSIZE2
      invariant forall k :: 0 <= k < i ==> ds[k] > 0 && coefBlock[k] == ToCoef(Rounded(workspace[k], ds[k]))
    {
      var q := QuantizeOne(w, divisors, i, workspace[i], ds[i]);
      coefBlock[i] := ToCoef(q);
    }
  }

  /** One coefficient: no step overflows the words it is done in. */
  method QuantizeOne(w: nat, divisors: array<int>, i: nat, x: int, ghost d: nat) returns (temp: int)
    requires WordSize(w) && i < DCTSIZE2 && DividesAt(w, divisors[..], i, d) && Abs(x) < Pow2(w - 1)
    ensures d > 0 && temp == Rounded(x, d)
  {
    hide Pow2;
    var recip := Unsigned(w, divisors[i]);
    var corr := Unsigned(w, divisors[DCTSIZE2 + i]);
    var shift := divisors[3 * DCTSIZE2 + i];
    temp := x;
    assert DividesOne(w, ReciprocalAt(w, divisors[..], i), d, Abs(x));
    if temp < 0 {
      temp := -temp;
      var product := (temp + corr) * recip;
      product := product / Pow2(shift + w);
      temp := product;
      temp := -temp;
    } else {
      var product := (temp + corr) * recip;
      product := product / Pow2(shift + w);
      temp := product;
    }
  }

  /** The divisor for the slow integer DCT, as a 16-bit number. */
  function IslowDivisor(quantval: nat): nat {
    quantval * 8 % 0x10000
  }

  /** start_pass_fdctmgr for one table and the slow integer DCT. */
  method MakeDivisors(w: nat, quantval: seq<nat>) returns (dtbl: array<int>, simd: bool)
    requires WordSize(w) && |quantval| == DCTSIZE2 && forall i :: 0 <= i < DCTSIZE2 ==> IslowDivisor(quantval[i]) > 0
    ensures fresh(dtbl) && forall i :: 0 <= i < DCTSIZE2 ==> DividesAt(w, dtbl[..], i, IslowDivisor(quantval[i]))
    ensures simd
  {
    hide Pow2, Divides;
    dtbl := new int[4 * DCTSIZE2](_ => 0);
    simd := true;
    for i := 0 to DCTSIZE2
      invariant dtbl.Length == 4 * DCTSIZE2 && simd
      invariant forall k :: 0 <= k < i ==> DividesAt(w, dtbl[..], k, IslowDivisor(quantval[k]))
    {
      ghost var before := dtbl[..];
      EightDivides(quantval[i]);
      var ok := ComputeReciprocal(w, IslowDivisor(quantval[i]), dtbl, i);
      simd := simd && ok;
      forall k | 0 <= k < i
        ensures DividesAt(w, dtbl[..], k, IslowDivisor(quantval[k]))
      {
        OtherEntries(w, before, dtbl[..], k, i, IslowDivisor(quantval[k]));
      }
    }
  }

  lemma EightDivides(q: nat)
    ensures IslowDivisor(q) > 0 ==> IslowDivisor(q) >= 8
  {
  }

  lemma OtherEntries(w: nat, before: seq<int>, after: seq<int>, k: nat, i: nat, d: nat)
    requires k < i < DCTSIZE2 && DividesAt(w, before, k, d) && |after| == |before|
    requires forall j :: 0 <= j < 4 * DCTSIZE2 && j % DCTSIZE2 != i ==> after[j] == before[j]
    ensures DividesAt(w, after, k, d)
  {
    hide Pow2, Divides;
    assert k % DCTSIZE2 == (DCTSIZE2 + k) % DCTSIZE2 == (3 * DCTSIZE2 + k) % DCTSIZE2 == k;
  }

  /**
    Quantization with the tables of a pass is division by the table's entries, to the nearest, for every DCT output
    whose magnitude DCTELEM can hold.
  */
  method QuantizeBlock(w: nat, quantval: seq<nat>, dct: seq<int>) returns (coefs: seq<Coef>)
    requires WordSize(w) && |quantval| == |dct| == DCTSIZE2
    requires forall i :: 0 <= i < DCTSIZE2 ==> IslowDivisor(quantval[i]) > 0 && Abs(dct[i]) < Pow2(w - 1)
    ensures |coefs| == DCTSIZE2
    ensures forall i :: 0 <= i < DCTSIZE2 ==> coefs[i] == ToCoef(Rounded(dct[i], IslowDivisor(quantval[i])))
  {
    hide Pow2, DividesAt, Rounded, ToCoef, IslowDivisor;
    var dtbl, simd := MakeDivisors(w, quantval);
    var block := new Coef[DCTSIZE2](_ => 0);
    var workspace := new int[DCTSIZE2](i requires 0 <= i < DCTSIZE2 => dct[i]);
    ghost var ds := seq(DCTSIZE2, i requires 0 <= i < DCTSIZE2 => IslowDivisor(quantval[i]));
    Quantize(w, block, dtbl, workspace, ds);
    coefs := block[..];
  }

  /** With 16-bit words the quotient always fits a coefficient. */
  lemma QuotientFits(x: int, d: nat)
    requires d > 0 && Abs(x) < 0x8000
    ensures Abs(Rounded(x, d)) <= Abs(x) && ToCoef(Rounded(x, d)) == Rounded(x, d)
  {
    RoundedBelow(Abs(x), d);
    ToCoefExact(Rounded(x, d), Rounded(x, d), 0);
  }

  lemma RoundedBelow(n: nat, d: nat)
    requires d > 0
    ensures (n + d / 2) / d <= n
  {
    var q := (n + d / 2) / d;
    assert q * d <= n + d / 2;
    if q > n {
      MulMonotone(n + 1, q, d);
      MulMonotone(1, d, n);
    }
  }
}
