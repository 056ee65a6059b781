/** Numbers as strings of bits, most significant first, and strings of bytes as strings of bits. */
module BitString {
  import opened Powers
  import opened ByteStream

  /** A bit buffer is a 32-bit word. */
  const REGISTER: nat := 0x1_0000_0000

  /** The low n bits of v. */
  function BitsOf(v: nat, n: nat): (r: seq<Bit>)
    ensures |r| == n
  {
    if n == 0 then [] else BitsOf(v / 2, n - 1) + [v % 2]
  }

  lemma {:induction false} BitsAppend(v: nat, n: nat, w: nat, m: nat)
    requires w < Pow2(m)
    ensures BitsOf(v * Pow2(m) + w, n + m) == BitsOf(v, n) + BitsOf(w, m)
  {
    if m > 0 {
      var p := Pow2(m - 1);
      HalveSum(v, p, w);
      BitsAppend(v, n, w / 2, m - 1);
      assert BitsOf(v * Pow2(m) + w, n + m) == BitsOf(v * p + w / 2, n + m - 1) + [w % 2];
    }
  }

  lemma HalveSum(v: nat, p: nat, w: nat)
    ensures (v * (2 * p) + w) / 2 == v * p + w / 2
    ensures (v * (2 * p) + w) % 2 == w % 2
  {
    Regroup(v, p);
    assert v * (2 * p) == 2 * (v * p);
  }

  /** The first m of n bits are the high bits of the number, the others the low ones. */
  lemma BitsSplit(v: nat, n: nat, m: nat)
    requires m <= n
    ensures BitsOf(v, n)[..m] == BitsOf(v / Pow2(n - m), m)
    ensures BitsOf(v, n)[m..] == BitsOf(v % Pow2(n - m), n - m)
  {
    hide Pow2, BitsOf;
    var p := Pow2(n - m);
    BitsAppend(v / p, m, v % p, n - m);
    assert v == v / p * p + v % p;
  }

  /** A number is known from its bits. */
  lemma {:induction false} BitsUnique(v: nat, w: nat, n: nat)
    requires v < Pow2(n) && w < Pow2(n) && BitsOf(v, n) == BitsOf(w, n)
    ensures v == w
  {
    if n > 0 {
      var a, b := BitsOf(v, n), BitsOf(w, n);
      assert a[..n - 1] == BitsOf(v / 2, n - 1) && b[..n - 1] == BitsOf(w / 2, n - 1);
      assert a[n - 1] == v % 2 && b[n - 1] == w % 2;
      BitsUnique(v / 2, w / 2, n - 1);
    }
  }

  /** Bits above the n-th do not matter. */
  lemma {:induction false} BitsLow(v: nat, n: nat)
    ensures BitsOf(v % Pow2(n), n) == BitsOf(v, n)
  {
    BitsSplit(v, n, 0);
  }

  /** A register of w bits keeps the low n <= w bits of anything. */
  lemma BitsInRegister(v: nat, w: nat, n: nat)
    requires n <= w
    ensures BitsOf(v % Pow2(w), n) == BitsOf(v, n)
  {
    hide Pow2, BitsOf;
    var x := v % Pow2(w);
    BitsLow(v, w);
    BitsSplit(v, w, w - n);
    BitsSplit(x, w, w - n);
    BitsLow(v, n);
    BitsLow(x, n);
  }

  /** All n bits set. */
  lemma {:induction false} BitsOfOnes(n: nat)
    ensures BitsOf(Pow2(n) - 1, n) == seq(n, _ => 1)
  {
    if n > 0 {
      BitsOfOnes(n - 1);
    }
  }

  /** A string of bytes as a string of bits. */
  function Flat(data: seq<byte>): (r: seq<Bit>)
    ensures |r| == 8 * |data|
  {
    if data == [] then [] else BitsOf(data[0], 8) + Flat(data[1..])
  }

  lemma {:induction false} FlatAppend(a: seq<byte>, b: seq<byte>)
    ensures Flat(a + b) == Flat(a) + Flat(b)
  {
    if a == [] {
      assert a + b == b;
    } else {
      FlatAppend(a[1..], b);
      assert (a + b)[1..] == a[1..] + b;
    }
  }

  lemma FlatSnoc(data: seq<byte>, b: byte)
    ensures Flat(data + [b]) == Flat(data) + BitsOf(b, 8)
  {
    hide BitsOf;
    FlatAppend(data, [b]);
    assert Flat([b]) == BitsOf(b, 8) + Flat([]);
  }
}
