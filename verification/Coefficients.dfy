/** Quantized DCT coefficients: 16-bit values, blocks of 64, and the point transform of progressive JPEG. */
module Coefficients {
  import opened Powers
  import opened Zigzag

  type Coef = v: int | -0x8000 <= v < 0x8000

  type Block = b: seq<Coef> | |b| == 64 witness seq(64, _ => 0)

  const ZERO_BLOCK: Block := seq(64, _ => 0)

  function Abs(v: int): nat {
    if v < 0 then -v else v
  }

  function SignBit(v: int): (s: nat)
    ensures s < 2
  {
    if v < 0 then 1 else 0
  }

  /** Conversion of an int to the 16-bit coefficient type. */
  function ToCoef(x: int): Coef {
    if x % 0x10000 >= 0x8000 then x % 0x10000 - 0x10000 else x % 0x10000
  }

  lemma ToCoefExact(v: Coef, x: int, q: int)
    requires x == v + q * 0x10000
    ensures ToCoef(x) == v
  {
    if v >= 0 {
      DivModUnique(x, q, v, 0x10000);
    } else {
      DivModUnique(x, q - 1, v + 0x10000, 0x10000);
    }
  }

  /** Values of a block in zigzag order. */
  type Zz = z: seq<int> | |z| == 64 witness seq(64, _ => 0)

  /** The coefficient at step k of zigzag order. */
  function At(b: Block, k: nat): Coef
    requires k < 64
  {
    NaturalOrderIsZigzag(k);
    b[NaturalOrder(k)]
  }

  function InZigzag(b: Block): Zz {
    seq(64, k requires 0 <= k < 64 => At(b, k))
  }

  function Put(b: Block, k: nat, v: Coef): Block
    requires k < 64
  {
    NaturalOrderIsZigzag(k);
    b[NaturalOrder(k) := v]
  }

  /** Storing one coefficient leaves the others alone. */
  lemma PutAt(b: Block, k: nat, v: Coef, j: nat)
    requires k < 64 && j < 64
    ensures At(Put(b, k, v), j) == if j == k then v else At(b, j)
  {
    hide NaturalOrder, ZigzagIndex;
    NaturalOrderIsZigzag(k);
    NaturalOrderIsZigzag(j);
  }

  lemma SameBlock(a: Block, b: Block)
    requires forall k :: 0 <= k < 64 ==> At(a, k) == At(b, k)
    ensures a == b
  {
    hide NaturalOrder;
    forall n | 0 <= n < 64
      ensures a[n] == b[n]
    {
      var k := ZigzagOf(n);
      assert At(a, k) == At(b, k);
    }
  }

  /** The point transform of AC coefficients, unscaled: a shift of the magnitude, keeping the sign. */
  function Scale(v: int, al: nat): int {
    if v < 0 then -(-v / Pow2(al)) else v / Pow2(al)
  }

  /** The number of bits of v, zero for zero. */
  function BitLength(v: nat): (n: nat) {
    if v == 0 then 0 else 1 + BitLength(v / 2)
  }

  lemma {:induction false} BitLengthBounds(v: nat)
    requires v > 0
    ensures BitLength(v) >= 1
    ensures Pow2(BitLength(v) - 1) <= v < Pow2(BitLength(v))
  {
    if v == 1 {
      assert BitLength(1 / 2) == 0;
    } else {
      BitLengthBounds(v / 2);
    }
  }

  lemma {:induction false} BitLengthAtMost(v: nat, n: nat)
    ensures BitLength(v) <= n <==> v < Pow2(n)
  {
    if v == 0 {
    } else if n == 0 {
    } else {
      BitLengthAtMost(v / 2, n - 1);
    }
  }

  /** The top bit of v is its only bit from there on. */
  lemma TopBitIsOne(v: nat)
    requires v > 0
    ensures v / Pow2(BitLength(v) - 1) == 1
  {
    BitLengthBounds(v);
    var p := Pow2(BitLength(v) - 1);
    DivModUnique(v, 1, v - p, p);
  }
}
