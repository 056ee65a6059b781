/** The finite code register of the arithmetic encoder against the exact code it stands for. */
module CodeRegister {
  import opened Powers
  import opened ByteStream
  import opened CodeInterval

  /**
    The registers beside n bytes of value v: c and a leave the spacer bits room for one carry,
    and the whole code stays below one.
  */
  predicate Fits(v: nat, n: nat, c: nat, a: nat, ct: nat) {
    && ct <= 11
    && (n > 0 ==> ct <= 8)
    && 1 <= a <= 0x10000
    && (c + a) * Pow2(ct) <= 0x9000000
    && v * Pow2(27 - ct) + c + a <= Pow2(8 * n + 27 - ct)
  }

  /** The exact, unbounded code register: all bytes shifted out, followed by c. */
  function CodeOf(v: nat, n: nat, c: nat, a: nat, ct: nat): Interval
    requires ct <= 11
  {
    Interval(v * Pow2(27 - ct) + c, a, 8 * n + 11 - ct)
  }

  /** The registers of a new segment hold the whole unit interval. */
  lemma StartRegisters()
    ensures DigitsOf([], 0, -1, 0) == []
    ensures Fits(Value([]), 0, 0, 0x10000, 11) && CodeOf(Value([]), 0, 0, 0x10000, 11) == START
    ensures Stuff([]) == []
  {
    Pow2Values();
  }

  lemma ShiftArithmetic(v: nat, c: nat, a: nat, p: nat, q: nat)
    ensures (2 * c + 2 * a) * p == (c + a) * (2 * p)
    ensures v * (2 * q) == 2 * (v * q)
  {
  }

  lemma ShiftLeft(v: nat, n: nat, c: nat, a: nat, ct: nat)
    requires ct >= 1 && a < 0x8000
    requires Fits(v, n, c, a, ct)
    ensures Fits(v, n, 2 * c, 2 * a, ct - 1)
    ensures var iv := CodeOf(v, n, c, a, ct);
      CodeOf(v, n, 2 * c, 2 * a, ct - 1) == Interval(2 * iv.low, 2 * iv.a, iv.t + 1)
  {
    var p, q, r := Pow2(ct - 1), Pow2(27 - ct), Pow2(8 * n + 27 - ct);
    assert Pow2(ct) == 2 * p && Pow2(27 - (ct - 1)) == 2 * q && Pow2(8 * n + 27 - (ct - 1)) == 2 * r;
    hide Pow2;
    ShiftArithmetic(v, c, a, p, q);
  }

  lemma TakePart(v: nat, n: nat, c: nat, a: nat, ct: nat, c': nat, a': nat)
    requires Fits(v, n, c, a, ct)
    requires 1 <= a' && c <= c' && c' + a' <= c + a
    ensures Fits(v, n, c', a', ct)
    ensures var iv := CodeOf(v, n, c, a, ct);
      CodeOf(v, n, c', a', ct) == Interval(iv.low + c' - c, a', iv.t)
  {
    hide Pow2;
    MulMonotone(c' + a', c + a, Pow2(ct));
  }

  /** While nothing but 0xFF has been shifted out, c cannot overflow. */
  lemma NoCarryIntoNothing(n: nat, c: nat, a: nat)
    requires Fits(Value(Repeat(0xFF, n)), n, c, a, 0)
    ensures c < 0x8000000
  {
    ValueAllOnes(n);
    Pow2Sum(8 * n, 27);
    Pow2Values();
  }

  /** Moving the top byte, and any carry, out of c keeps the exact code and restores the spacer bits. */
  lemma ShiftOut(v: nat, n: nat, c: nat, a: nat)
    requires Fits(v, n, c, a, 0)
    ensures c / 0x80000 <= 0x120
    ensures var v', c' := v * 256 + c / 0x80000, c % 0x80000;
      Fits(v', n + 1, c', a, 8) && CodeOf(v', n + 1, c', a, 8) == CodeOf(v, n, c, a, 0)
  {
    Pow2Values();
    assert c == c / 0x80000 * 0x80000 + c % 0x80000;
    assert 8 * (n + 1) + 27 - 8 == 8 * n + 27;
  }

  /** The value of the interval with the most trailing zero bits: the code that termination sends. */
  function FinalCode(c: nat, a: nat): (r: nat)
    requires 0x8000 <= a <= 0x10000
    ensures c <= r < c + a
    ensures r % 0x8000 == 0
  {
    var temp := a - 1 + c - (a - 1 + c) % 0x10000;
    if temp < c then temp + 0x8000 else temp
  }

  function CarryBits(w: nat): nat { (w / 0x8000000) % 0x20 }

  function FirstByte(w: nat): byte { (w / 0x80000) % 0x100 }

  function SecondByte(w: nat): byte { (w / 0x800) % 0x100 }

  lemma Fields(w: nat)
    requires w % 0x10000 == 0 && w < 0x10000000
    ensures w == CarryBits(w) * 0x8000000 + FirstByte(w) * 0x80000 + SecondByte(w) * 0x800
    ensures CarryBits(w) <= 1
  {
    var m := w / 0x10000;
    assert m == m / 8 * 8 + m % 8 && m / 8 == m / 0x800 * 0x100 + m / 8 % 0x100;
    DivModUnique(w, m / 8, (m % 8) * 0x10000, 0x80000);
    DivModUnique(w, m / 0x800, (m / 8 % 0x100) * 0x80000 + (m % 8) * 0x10000, 0x8000000);
    DivModUnique(w, m * 0x20, 0, 0x800);
    DivModUnique(m * 0x20, m / 8, (m % 8) * 0x20, 0x100);
  }

  lemma ShiftedMultiple(code: nat, p: nat)
    requires code % 0x8000 == 0
    ensures code * (2 * p) % 0x10000 == 0
  {
    var m := code / 0x8000;
    assert code * (2 * p) == m * p * 0x10000;
    DivModUnique(code * (2 * p), m * p, 0, 0x10000);
  }

  /** Left-aligned, the final code is a possible carry and two bytes. */
  lemma FinalFields(v: nat, n: nat, c: nat, a: nat, ct: nat, code: nat, w: nat)
    requires 1 <= ct && Fits(v, n, c, a, ct)
    requires code < c + a && code % 0x8000 == 0 && w == code * Pow2(ct)
    ensures w == CarryBits(w) * 0x8000000 + FirstByte(w) * 0x80000 + SecondByte(w) * 0x800
    ensures CarryBits(w) <= 1
  {
    MulStrict(code, c + a, Pow2(ct));
    ShiftedMultiple(code, Pow2(ct - 1));
    Fields(w);
  }

  lemma FinalArithmetic(v: nat, p27: nat, code: nat, pct: nat, k: nat, b1: nat, b2: nat)
    requires p27 * pct == 0x8000000
    requires code * pct == k * 0x8000000 + b1 * 0x80000 + b2 * 0x800
    ensures (v * p27 + code) * pct == ((v + k) * 0x10000 + b1 * 0x100 + b2) * 0x800
  {
    assert v * p27 * pct == v * (p27 * pct);
  }

  /** Digits that spell out a code of the interval, with or without final zeros, name a value inside it. */
  lemma FinalInside(data: seq<byte>, z: nat, digits: seq<byte>, b1: byte, b2: byte,
                    v: nat, c: nat, a: nat, ct: nat, code: nat, k: nat)
    requires data + Repeat(0, z) == digits + [b1, b2]
    requires 1 <= ct && Fits(v, |digits|, c, a, ct)
    requires c <= code < c + a
    requires code * Pow2(ct) == k * 0x8000000 + b1 * 0x80000 + b2 * 0x800
    requires Value(digits) == v + k
    ensures Inside(data, CodeOf(v, |digits|, c, a, ct))
  {
    hide Pow2, Value, Prefix, Inside;
    var iv, n, f := CodeOf(v, |digits|, c, a, ct), |digits|, v * Pow2(27 - ct) + code;
    FinalValue(digits, b1, b2);
    var w := Value(digits + [b1, b2]);
    FinalScaled(v, code, ct, k, b1, b2);
    PrefixIgnoresFinalZeros(data, z, n + 4);
    PrefixPastEnd(digits + [b1, b2], 2);
    Pow2Values();
    assert Prefix(data, n + 4) == w * 0x10000;
    InsideUnit(data, iv, n, f, 5 + ct);
  }

  lemma FinalScaled(v: nat, code: nat, ct: nat, k: nat, b1: nat, b2: nat)
    requires 1 <= ct <= 11
    requires code * Pow2(ct) == k * 0x8000000 + b1 * 0x80000 + b2 * 0x800
    ensures (v * Pow2(27 - ct) + code) * Pow2(5 + ct) == ((v + k) * 0x10000 + b1 * 0x100 + b2) * 0x10000
  {
    hide Pow2;
    Pow2Sum(27 - ct, ct);
    Pow2Values();
    FinalArithmetic(v, Pow2(27 - ct), code, Pow2(ct), k, b1, b2);
    Pow2Sum(5, ct);
    TimesPower(v * Pow2(27 - ct) + code, Pow2(ct));
  }

  lemma TimesPower(f: nat, p: nat)
    ensures f * (32 * p) == f * p * 32
  {
  }

  lemma FinalValue(digits: seq<byte>, b1: byte, b2: byte)
    ensures Value(digits + [b1, b2]) == Value(digits) * 0x10000 + b1 * 0x100 + b2
  {
    assert digits + [b1, b2] == digits + [b1] + [b2];
    ValueSnoc(digits + [b1], b2);
    ValueSnoc(digits, b1);
  }

  lemma InsideUnit(data: seq<byte>, iv: Interval, n: nat, f: nat, e: nat)
    requires 8 * (n + 4) == 16 + iv.t + e
    requires iv.low <= f < iv.low + iv.a && Prefix(data, n + 4) == f * Pow2(e)
    ensures Inside(data, iv)
  {
    hide Pow2, Prefix;
    MulMonotone(iv.low, f, Pow2(e));
    MulStrict(f, iv.low + iv.a, Pow2(e));
    InsideAnywhere(data, iv, BytesFor(iv.t), n + 4);
  }

  lemma RoomBelowOne(v: nat, q: nat, e: nat, r: nat, c: nat, a: nat)
    requires v + 1 == e && r == e * q && v * q + c + a <= r
    ensures c + a <= q
  {
    assert e * q == v * q + q;
  }

  lemma NoFinalCarryIntoNothing(n: nat, c: nat, a: nat, ct: nat, code: nat)
    requires Fits(Value(Repeat(0xFF, n)), n, c, a, ct) && code < c + a
    ensures CarryBits(code * Pow2(ct)) == 0
  {
    hide Value, Pow2, CarryBits;
    var v, q := Value(Repeat(0xFF, n)), Pow2(27 - ct);
    ValueAllOnes(n);
    Pow2Sum(8 * n, 27 - ct);
    RoomBelowOne(v, q, Pow2(8 * n), Pow2(8 * n + 27 - ct), c, a);
    assert q * Pow2(ct) == 0x8000000 by {
      Pow2Sum(27 - ct, ct);
      Pow2Values();
    }
    MulStrict(code, q, Pow2(ct));
    NoCarryBits(code * Pow2(ct));
  }

  lemma NoCarryBits(w: nat)
    requires w < 0x8000000
    ensures CarryBits(w) == 0
  {
  }

  /** All bytes shifted out of c: written data, pending zeros, the open byte, stacked 0xFF bytes. */
  function DigitsOf(data: seq<byte>, zc: nat, buffer: int, sc: nat): seq<byte>
    requires -1 <= buffer <= 0xFE
  {
    data + Repeat(0, zc) + (if buffer >= 0 then [buffer] else []) + Repeat(0xFF, sc)
  }

  lemma PushCarry(data: seq<byte>, zc: nat, buffer: byte, sc: nat, t: byte)
    requires buffer <= 0xFE && t <= 0xFE
    ensures var old', new' := DigitsOf(data, zc, buffer, sc), DigitsOf(data + Repeat(0, zc) + [buffer + 1], sc, t, 0);
      |new'| == |old'| + 1 && Value(new') == Value(old') * 256 + 0x100 + t
  {
    var head := data + Repeat(0, zc);
    ValueCarry(head, buffer, sc);
    assert DigitsOf(head + [buffer + 1], sc, t, 0) == head + [buffer + 1] + Repeat(0, sc) + [t];
    ValueSnoc(head + [buffer + 1] + Repeat(0, sc), t);
  }

  lemma PushOnes(data: seq<byte>, zc: nat, buffer: int, sc: nat)
    requires -1 <= buffer <= 0xFE
    ensures var old', new' := DigitsOf(data, zc, buffer, sc), DigitsOf(data, zc, buffer, sc + 1);
      |new'| == |old'| + 1 && Value(new') == Value(old') * 256 + 0xFF
  {
    var old' := DigitsOf(data, zc, buffer, sc);
    RepeatSnoc(0xFF, sc);
    assert DigitsOf(data, zc, buffer, sc + 1) == old' + [0xFF];
    ValueSnoc(old', 0xFF);
  }

  lemma PushPlain(digits: seq<byte>, data: seq<byte>, zc: nat, t: byte)
    requires t <= 0xFE && digits == data + Repeat(0, zc)
    ensures var new' := DigitsOf(data, zc, t, 0);
      |new'| == |digits| + 1 && Value(new') == Value(digits) * 256 + t
  {
    assert DigitsOf(data, zc, t, 0) == digits + [t];
    ValueSnoc(digits, t);
  }
}
