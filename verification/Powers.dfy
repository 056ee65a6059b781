/** Bits, powers of two, and the few non-linear facts that the codecs need about them. */
module Powers {

  type Bit = b: nat | b < 2

  function Pow2(n: nat): (p: nat)
    ensures p >= 1
  {
    if n == 0 then 1 else 2 * Pow2(n - 1)
  }

  lemma {:induction false} Pow2Sum(m: nat, n: nat)
    ensures Pow2(m + n) == Pow2(m) * Pow2(n)
  {
    if m == 0 {
    } else {
      Pow2Sum(m - 1, n);
      assert m + n - 1 == (m - 1) + n;
    }
  }

  lemma Pow2Values()
    ensures Pow2(5) == 0x20 && Pow2(8) == 0x100 && Pow2(11) == 0x800 && Pow2(14) == 0x4000 && Pow2(15) == 0x8000
      && Pow2(16) == 0x10000
    ensures Pow2(19) == 0x80000 && Pow2(27) == 0x8000000
  {
  }

  lemma RegisterSize()
    ensures Pow2(32) == 0x1_0000_0000
  {
    hide Pow2;
    Pow2Values();
    Pow2Sum(5, 27);
  }

  lemma {:induction false} Pow2Monotone(m: nat, n: nat)
    requires m <= n
    ensures Pow2(m) <= Pow2(n)
  {
    if m == n {
    } else {
      Pow2Monotone(m, n - 1);
    }
  }

  lemma MulMonotone(a: int, b: int, k: nat)
    requires a <= b
    ensures a * k <= b * k
  {
  }

  lemma MulStrict(a: int, b: int, k: int)
    requires k > 0
    ensures a < b <==> a * k < b * k
    ensures a <= b <==> a * k <= b * k
  {
  }

  /** A quotient is known from any remainder in range. */
  lemma DivModUnique(x: int, q: int, r: int, d: int)
    requires 0 <= r < d
    requires x == q * d + r
    ensures x / d == q && x % d == r
  {
    var q', r' := x / d, x % d;
    assert x == q' * d + r';
    assert (q - q') * d == r' - r;
    if q < q' {
      MulMonotone(q - q', -1, d);
    } else if q > q' {
      MulMonotone(1, q - q', d);
    }
  }

  lemma DoubleStep(m: nat, n: nat)
    ensures n == 0 ==> m * Pow2(n) == m
    ensures n > 0 ==> 2 * m * Pow2(n - 1) == m * Pow2(n)
  {
  }

  /** Doubling a power of two below 2^15 meets 2^15 exactly. */
  lemma Pow2Fifteen(e: nat)
    requires e < 15
    ensures 2 * Pow2(e) == Pow2(e + 1)
    ensures 2 * Pow2(e) == 0x8000 <==> e == 14
  {
    assert Pow2(14) == 0x4000;
    if e < 14 {
      Pow2Monotone(e, 13);
      assert Pow2(13) == 0x2000;
    }
  }

  /** The top n + 1 bits of a number, from its top n bits and the next one. */
  lemma NextBit(v: int, n: nat)
    ensures v / Pow2(n + 1) * Pow2(n + 1) + v / Pow2(n) % 2 * Pow2(n) == v / Pow2(n) * Pow2(n)
  {
    var p, q := Pow2(n), v / Pow2(n);
    HalveAgain(v, p);
    assert q == q / 2 * 2 + q % 2;
    Regroup(q / 2, p);
    assert q * p == (2 * (q / 2)) * p + q % 2 * p;
  }

  lemma HalveAgain(x: int, p: nat)
    requires p > 0
    ensures x / (2 * p) == x / p / 2
  {
    var q, r := x / p, x % p;
    assert x == q * p + r;
    assert q == q / 2 * 2 + q % 2;
    assert x == q / 2 * (2 * p) + (q % 2 * p + r);
    assert 0 <= q % 2 * p + r < 2 * p;
    DivModUnique(x, q / 2, q % 2 * p + r, 2 * p);
  }

  lemma Regroup(x: int, unit: nat)
    ensures x * (2 * unit) == 2 * x * unit
  {
  }

  lemma MaskStart(m: nat, v: nat, bits: nat)
    requires (m == 0 && v == 0 && bits == 0) || (m == Pow2(bits) && v / Pow2(bits) == 1)
    ensures m / 2 == if bits == 0 then 0 else Pow2(bits - 1)
    ensures m == v / Pow2(bits) * Pow2(bits)
  {
  }

  lemma MaskEnd(v: nat)
    ensures v / Pow2(0) * Pow2(0) == v
  {
  }

  /** Clearing the low n + 1 bits leaves bit n unset. */
  lemma ClearedBit(v: int, n: nat)
    ensures v / Pow2(n + 1) * Pow2(n + 1) / Pow2(n) % 2 == 0
  {
    var p, q := Pow2(n), v / Pow2(n + 1);
    assert q * (2 * p) == 2 * q * p;
    DivModUnique(q * (2 * p), 2 * q, 0, p);
  }

  /** Dividing twice is dividing by the product. */
  lemma DivideTwice(x: nat, a: nat, b: nat)
    requires a > 0 && b > 0
    ensures a * b > 0 && x / (a * b) == x / a / b
  {
    var y, q := x / a, x / a / b;
    Remainders(x, y, x % a, q, y % b, a, b);
    DivModUnique(x, q, y % b * a + x % a, a * b);
  }

  lemma Remainders(x: nat, y: nat, e: nat, q: nat, r: nat, a: nat, b: nat)
    requires x == y * a + e && e < a && y == q * b + r && r < b
    ensures 0 <= r * a + e < a * b && x == q * (a * b) + (r * a + e)
  {
    assert q * b * a == q * (a * b);
    MulMonotone(r + 1, b, a);
  }

  lemma QuotientAtLeast(x: nat, q: nat, p: nat)
    requires p >= 1 && x >= q * p
    ensures x / p >= q
  {
    var r := x / p;
    assert r * p <= x < r * p + p;
    if r < q {
      MulMonotone(r + 1, q, p);
    }
  }

  lemma QuotientBelow(x: nat, q: nat, p: nat)
    requires p >= 1 && x < q * p
    ensures x / p < q
  {
    var r := x / p;
    assert r * p <= x < r * p + p;
    if r >= q {
      MulMonotone(q, r, p);
    }
  }

  lemma Distribute(a: int, b: int, c: int)
    ensures (a + b) * c == a * c + b * c
  {
  }
}
