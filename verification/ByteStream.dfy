/** Entropy-coded bytes: base-256 values, and the 0xFF/0x00 byte stuffing that keeps data apart from markers. */
module ByteStream {
  import opened Powers

  type byte = x: int | 0 <= x < 256

  function Repeat(b: byte, n: nat): (s: seq<byte>)
    ensures |s| == n
    ensures forall i :: 0 <= i < n ==> s[i] == b
  {
    seq(n, _ => b)
  }

  /** The number whose base-256 digits, most significant first, are s. */
  function Value(s: seq<byte>): nat {
    if s == [] then 0 else Value(s[..|s| - 1]) * 256 + s[|s| - 1]
  }

  lemma ValueSnoc(s: seq<byte>, b: byte)
    ensures Value(s + [b]) == Value(s) * 256 + b
  {
    assert (s + [b])[..|s|] == s;
  }

  /** A carry turns a digit followed by 0xFF digits into its successor followed by zeros. */
  lemma {:induction false} ValueCarry(s: seq<byte>, b: byte, n: nat)
    requires b < 0xFF
    ensures Value(s + [b] + Repeat(0xFF, n)) + 1 == Value(s + [b + 1] + Repeat(0, n))
  {
    if n == 0 {
      assert s + [b] + Repeat(0xFF, 0) == s + [b];
      assert s + [b + 1] + Repeat(0, 0) == s + [b + 1];
      ValueSnoc(s, b);
      ValueSnoc(s, b + 1);
    } else {
      var x, y := s + [b] + Repeat(0xFF, n - 1), s + [b + 1] + Repeat(0, n - 1);
      assert s + [b] + Repeat(0xFF, n) == x + [0xFF];
      assert s + [b + 1] + Repeat(0, n) == y + [0];
      ValueCarry(s, b, n - 1);
      ValueSnoc(x, 0xFF);
      ValueSnoc(y, 0);
    }
  }

  /** All-ones digits are one short of the next power. */
  lemma {:induction false} ValueAllOnes(n: nat)
    ensures Value(Repeat(0xFF, n)) + 1 == Pow2(8 * n)
  {
    if n == 0 {
    } else {
      hide Value, Pow2;
      ValueAllOnes(n - 1);
      RepeatSnoc(0xFF, n - 1);
      ValueSnoc(Repeat(0xFF, n - 1), 0xFF);
      Pow2Sum(8 * (n - 1), 8);
      Pow2Values();
    }
  }

  /** Data byte i of a segment; a decoder that has run into the marker sees zeros. */
  function Digit(data: seq<byte>, i: nat): byte {
    if i < |data| then data[i] else 0
  }

  /** The number formed by the first n data bytes, zeros past the end. */
  function Prefix(data: seq<byte>, n: nat): nat {
    if n == 0 then 0 else Prefix(data, n - 1) * 256 + Digit(data, n - 1)
  }

  lemma {:induction false} PrefixIsValue(data: seq<byte>, n: nat)
    requires n <= |data|
    ensures Prefix(data, n) == Value(data[..n])
  {
    if n == 0 {
    } else {
      PrefixIsValue(data, n - 1);
      assert data[..n] == data[..n - 1] + [data[n - 1]];
      ValueSnoc(data[..n - 1], data[n - 1]);
    }
  }

  /** Discarding final zeros does not change what a decoder reads. */
  lemma {:induction false} PrefixIgnoresFinalZeros(data: seq<byte>, z: nat, n: nat)
    ensures Prefix(data + Repeat(0, z), n) == Prefix(data, n)
  {
    if n == 0 {
    } else {
      PrefixIgnoresFinalZeros(data, z, n - 1);
    }
  }

  function StuffByte(b: byte): seq<byte> {
    if b == 0xFF then [0xFF, 0x00] else [b]
  }

  /** Data bytes as written to the file: every 0xFF is followed by a zero byte. */
  function Stuff(data: seq<byte>): seq<byte> {
    if data == [] then [] else StuffByte(data[0]) + Stuff(data[1..])
  }

  lemma {:induction false} StuffAppend(a: seq<byte>, b: seq<byte>)
    ensures Stuff(a + b) == Stuff(a) + Stuff(b)
  {
    if a == [] {
      assert a + b == b;
    } else {
      StuffAppend(a[1..], b);
      assert (a + b)[1..] == a[1..] + b && (a + b)[0] == a[0];
      assert Stuff(a + b) == StuffByte(a[0]) + Stuff(a[1..] + b);
      hide Stuff, StuffByte;
      assert StuffByte(a[0]) + (Stuff(a[1..]) + Stuff(b)) == (StuffByte(a[0]) + Stuff(a[1..])) + Stuff(b);
    }
  }

  lemma StuffSnoc(a: seq<byte>, b: byte)
    ensures Stuff(a + [b]) == Stuff(a) + StuffByte(b)
  {
    StuffAppend(a, [b]);
    assert [b][1..] == [];
  }

  lemma RepeatSnoc(b: byte, n: nat)
    ensures Repeat(b, n + 1) == Repeat(b, n) + [b]
  {
  }

  /** Past the end of the data, every further byte read is a zero. */
  lemma {:induction false} PrefixPastEnd(data: seq<byte>, z: nat)
    ensures Prefix(data, |data| + z) == Value(data) * Pow2(8 * z)
  {
    if z == 0 {
      PrefixIsValue(data, |data|);
      assert data[..|data|] == data;
    } else {
      hide Value;
      PrefixPastEnd(data, z - 1);
      Pow2Sum(8, 8 * (z - 1));
      Pow2Values();
      assert 8 * z == 8 + 8 * (z - 1);
      TimesDigit(Value(data), Pow2(8 * (z - 1)));
    }
  }

  lemma TimesDigit(v: nat, p: nat)
    ensures v * p * 256 == v * (256 * p)
  {
  }

  /** What ends a segment in the file: at least one 0xFF, a marker code, and anything after it. */
  predicate Terminator(tail: seq<byte>, fill: nat) {
    && 1 <= fill < |tail|
    && (forall i :: 0 <= i < fill ==> tail[i] == 0xFF)
    && 0 < tail[fill] < 0xFF
  }

  lemma StuffHead(data: seq<byte>, n: nat, tail: seq<byte>)
    requires n < |data|
    ensures var rest := Stuff(data[n..]) + tail;
      if data[n] == 0xFF then
        |rest| >= 2 && rest[0] == 0xFF && rest[1] == 0 && rest[2..] == Stuff(data[n + 1..]) + tail
      else |rest| >= 1 && rest[0] == data[n] && rest[1..] == Stuff(data[n + 1..]) + tail
  {
    assert data[n..][1..] == data[n + 1..];
  }

  /** What lies ahead in the source: a plain byte, a stuffed 0xFF, or the marker behind its fill bytes. */
  lemma ReadAhead(rest: seq<byte>, data: seq<byte>, n: nat, tail: seq<byte>, fill: nat) returns (k: nat)
    requires n <= |data| && Terminator(tail, fill) && rest == Stuff(data[n..]) + tail
    ensures |rest| >= 1
    ensures rest[0] != 0xFF ==> n < |data| && rest[0] == data[n] && rest[1..] == Stuff(data[n + 1..]) + tail
    ensures rest[0] == 0xFF ==>
      && 1 <= k < |rest| && rest[k] != 0xFF && (forall i :: 1 <= i < k ==> rest[i] == 0xFF)
      && if rest[k] == 0 then n < |data| && data[n] == 0xFF && rest[k + 1..] == Stuff(data[n + 1..]) + tail
         else n == |data| && rest[k] == tail[fill] && rest[k + 1..] == tail[fill + 1..]
  {
    if n < |data| {
      StuffHead(data, n, tail);
      k := 1;
    } else {
      assert data[n..] == [] && rest == tail;
      k := fill;
    }
  }
}
