/** The arithmetic encoder of jcarith.c: finite registers, carry resolution, and shortest-output termination. */
module ArithEncoder {
  import opened Powers
  import opened ByteStream
  import opened ProbabilityTable
  import opened CodeInterval
  import opened CodeRegister

  class Encoder {
    var c: nat        // base of the coding interval: 16 fraction bits, 3 spacer bits, then the next output byte
    var a: nat        // size of the coding interval
    var sc: nat       // stacked 0xFF bytes, which a carry may still turn into zeros
    var zc: nat       // pending zero bytes, dropped if they turn out to be final
    var ct: nat       // shifts left until the next byte is ready
    var buffer: int   // latest byte other than 0xFF, still open to a carry; -1 when empty
    var stats: Stats
    var out: seq<byte>

    ghost var before: seq<byte>        // what was written before this segment
    ghost var data: seq<byte>          // this segment's bytes without stuffing
    ghost var coded: seq<Decision>     // the decisions coded in this segment

    /** Every byte shifted out of c so far, written or held back. */
    ghost function Digits(): seq<byte>
      reads this`data, this`zc, this`buffer, this`sc
      requires -1 <= buffer <= 0xFE
    {
      DigitsOf(data, zc, buffer, sc)
    }

    /** What is written and held back: the buffer is never 0xFF, and no written segment ends in zero. */
    ghost predicate Held()
      reads this`data, this`zc, this`buffer, this`out, this`before
    {
      && -1 <= buffer <= 0xFE
      && (buffer == -1 ==> data == [] && zc == 0)
      && (data != [] ==> data[|data| - 1] != 0)
      && Written()
    }

    ghost predicate Registers()
      reads this
    {
      && Held()
      && 1 <= a <= 0x10000
      && Fits(Value(Digits()), |Digits()|, c, a, ct)
    }

    ghost function Code(): (iv: Interval)
      reads this
      requires Registers()
      ensures iv.a == a
    {
      CodeOf(Value(Digits()), |Digits()|, c, a, ct)
    }

    ghost predicate Valid()
      reads this
    {
      && Registers()
      && ct >= 1
      && a >= 0x8000
      && Run(FRESH, coded) == Coded(Code(), stats)
    }

    constructor ()
      ensures Valid() && fresh(this)
      ensures coded == [] && out == before == []
    {
      c, a, sc, zc, ct, buffer := 0, 0x10000, 0, 0, 11, -1;
      stats, out, before, data, coded := map[], [], [], [], [];
      new;
      hide Fits, CodeOf, Value, Stuff, DigitsOf;
      StartRegisters();
    }

    /** Bytes go straight to the destination; suspension is not supported here. */
    method EmitByte(val: byte)
      modifies this`out
      ensures out == old(out) + [val]
    {
      out := out + [val];
    }

    ghost predicate Written()
      reads this`data, this`out, this`before
    {
      out == before + Stuff(data)
    }

    /** Writes one data byte, with a stuffed zero after 0xFF. */
    method EmitData(b: byte)
      requires Written()
      modifies this`out, this`data
      ensures Written() && data == old(data) + [b]
    {
      StuffSnoc(data, b);
      data := data + [b];
      EmitByte(b);
      if b == 0xFF {
        EmitByte(0);
      }
    }

    method EmitPendingZeros()
      requires Written()
      modifies this`out, this`data, this`zc
      ensures Written() && zc == 0 && data == old(data) + Repeat(0, old(zc))
    {
      ghost var n := 0;
      while zc > 0
        invariant n + zc == old(zc)
        invariant Written() && data == old(data) + Repeat(0, n)
      {
        EmitData(0);
        zc := zc - 1;
        RepeatSnoc(0, n);
        n := n + 1;
      }
    }

    method EmitStacked()
      requires Written()
      modifies this`out, this`data, this`sc
      ensures Written() && sc == 0 && data == old(data) + Repeat(0xFF, old(sc))
    {
      ghost var n := 0;
      while sc > 0
        invariant n + sc == old(sc)
        invariant Written() && data == old(data) + Repeat(0xFF, n)
      {
        EmitData(0xFF);
        sc := sc - 1;
        RepeatSnoc(0xFF, n);
        n := n + 1;
      }
    }

    /** The held-back byte takes the carry and is written; stacked 0xFF bytes become pending zeros. */
    method ResolveCarry()
      requires Written() && 0 <= buffer <= 0xFE
      modifies this`out, this`data, this`zc, this`sc
      ensures Written() && sc == 0 && zc == old(sc)
      ensures data == old(data) + Repeat(0, old(zc)) + [old(buffer) + 1]
    {
      EmitPendingZeros();
      EmitData(buffer + 1);
      zc := zc + sc;
      sc := 0;
    }

    /** No carry can reach the held-back byte any more. A zero stays pending, anything else is written. */
    method ReleaseBuffer()
      requires Written() && -1 <= buffer <= 0xFE
      requires data != [] ==> data[|data| - 1] != 0
      modifies this`out, this`data, this`zc
      ensures Written() && (data != [] ==> data[|data| - 1] != 0)
      ensures data + Repeat(0, zc) == old(data) + Repeat(0, old(zc)) + (if buffer >= 0 then [buffer] else [])
    {
      if buffer == 0 {
        RepeatSnoc(0, zc);
        zc := zc + 1;
      } else if buffer >= 0 {
        EmitPendingZeros();
        EmitData(buffer);
      }
    }

    /** Likewise for the stacked 0xFF bytes, which end any run of pending zeros. */
    method ReleaseStack()
      requires Written()
      requires data != [] ==> data[|data| - 1] != 0
      modifies this`out, this`data, this`zc, this`sc
      ensures Written() && sc == 0 && (data != [] ==> data[|data| - 1] != 0)
      ensures data + Repeat(0, zc) == old(data) + Repeat(0, old(zc)) + Repeat(0xFF, old(sc))
    {
      if sc > 0 {
        EmitPendingZeros();
        EmitStacked();
      }
    }

    /** Overflow over all stacked 0xFF bytes. */
    method PushOverflow(t: byte)
      requires Held() && t <= 0xFE && buffer >= 0
      modifies this`sc, this`zc, this`buffer, this`out, this`data
      ensures Held() && |Digits()| == |old(Digits())| + 1
      ensures Value(Digits()) == Value(old(Digits())) * 256 + 0x100 + t
    {
      PushCarry(data, zc, buffer, sc, t);
      ResolveCarry();
      buffer := t;
    }

    /** An 0xFF byte is stacked, since it might overflow later. */
    method PushStacked()
      requires Held()
      modifies this`sc
      ensures Held() && |Digits()| == |old(Digits())| + 1
      ensures Value(Digits()) == Value(old(Digits())) * 256 + 0xFF
    {
      PushOnes(data, zc, buffer, sc);
      sc := sc + 1;
    }

    /** Nothing held back can overflow any more; only the new byte can. */
    method PushFinal(t: byte)
      requires Held() && t <= 0xFE
      modifies this`sc, this`zc, this`buffer, this`out, this`data
      ensures Held() && |Digits()| == |old(Digits())| + 1
      ensures Value(Digits()) == Value(old(Digits())) * 256 + t
    {
      ReleaseBuffer();
      ReleaseStack();
      PushPlain(old(Digits()), data, zc, t);
      buffer := t;
    }

    method PushByte(temp: nat)
      requires Held() && temp <= 0x120 && (temp > 0xFF ==> buffer >= 0)
      modifies this`sc, this`zc, this`buffer, this`out, this`data
      ensures Held() && |Digits()| == |old(Digits())| + 1
      ensures Value(Digits()) == Value(old(Digits())) * 256 + temp
    {
      if temp > 0xFF {
        PushOverflow(temp % 0x100);
      } else if temp == 0xFF {
        PushStacked();
      } else {
        PushFinal(temp % 0x100);
      }
    }

    /** A byte is complete in c: take it out, resolving a carry into the bytes held back. */
    method OutputByte()
      requires Registers() && ct == 0
      modifies this`c, this`ct, this`sc, this`zc, this`buffer, this`out, this`data
      ensures Registers() && ct == 8
      ensures Code() == old(Code())
    {
      hide Pow2, Value, Fits, CodeOf;
      ghost var v, n := Value(Digits()), |Digits()|;
      ShiftOut(v, n, c, a);
      if buffer == -1 {
        assert Digits() == Repeat(0xFF, sc);
        NoCarryIntoNothing(sc, c, a);
      }
      var temp := c / 0x80000;
      PushByte(temp);
      c := c % 0x80000;
      ct := ct + 8;
      assert Value(Digits()) == v * 256 + temp && |Digits()| == n + 1;
    }

    /** Renormalization and data output. */
    method Renormalize()
      requires Registers() && ct >= 1
      modifies this`a, this`c, this`ct, this`sc, this`zc, this`buffer, this`out, this`data
      ensures Registers() && ct >= 1
      ensures Code() == CodeInterval.Renormalize(old(Code()))
    {
      while a < 0x8000
        invariant Registers() && ct >= 1
        invariant CodeInterval.Renormalize(Code()) == CodeInterval.Renormalize(old(Code()))
        decreases 0x10000 - a
      {
        hide Fits, CodeOf, Value;
        ShiftLeft(Value(Digits()), |Digits()|, c, a, ct);
        a := 2 * a;
        c := 2 * c;
        ct := ct - 1;
        if ct == 0 {
          OutputByte();
        }
      }
    }

    /** Codes one binary decision under the statistics of a bin. */
    method Encode(bin: Bin, val: Bit)
      requires Valid()
      modifies this
      ensures Valid() && before == old(before)
      ensures coded == old(coded) + [Decision(bin, val)]
    {
      hide Fits, CodeOf, Value, Run, Qe, AfterLps, AfterMps;
      RunSnoc(FRESH, coded, Decision(bin, val));
      ghost var v, n, c0, a0 := Value(Digits()), |Digits()|, c, a;
      coded := coded + [Decision(bin, val)];
      var sv := Stat(stats, bin);
      var qe := Qe(sv);
      a := a - qe;
      if val != Mps(sv) {
        if a >= qe {
          c := c + a;
          a := qe;
        }
        stats := stats[bin := AfterLps(sv)];
      } else {
        if a >= 0x8000 {
          TakePart(v, n, c0, a0, ct, c, a);
          return;
        }
        if a < qe {
          c := c + a;
          a := qe;
        }
        stats := stats[bin := AfterMps(sv)];
      }
      TakePart(v, n, c0, a0, ct, c, a);
      Renormalize();
    }

    /** The bytes held back can no longer change: a last carry is resolved, or they are released as they are. */
    method SettleHeldBytes(carry: bool)
      requires Held() && (carry ==> buffer >= 0)
      modifies this`sc, this`zc, this`out, this`data
      ensures Written() && sc == 0
      ensures data != [] ==> data[|data| - 1] != 0
      ensures |data + Repeat(0, zc)| == |old(Digits())|
      ensures Value(data + Repeat(0, zc)) == Value(old(Digits())) + (if carry then 1 else 0)
    {
      hide Value;
      if carry {
        ValueCarry(data + Repeat(0, zc), buffer, sc);
        ResolveCarry();
      } else {
        ReleaseBuffer();
        ReleaseStack();
      }
    }

    /** Writes the last two bytes, and the zeros pending before them, unless they are final zeros. */
    method EmitLastBytes(b1: byte, b2: byte) returns (ghost z: nat)
      requires Written()
      requires data != [] ==> data[|data| - 1] != 0
      modifies this`zc, this`out, this`data
      ensures Written()
      ensures data != [] ==> data[|data| - 1] != 0
      ensures data + Repeat(0, z) == old(data) + Repeat(0, old(zc)) + [b1, b2]
    {
      z := zc + 2;
      if b1 != 0 || b2 != 0 {
        EmitPendingZeros();
        EmitData(b1);
        z := 1;
        if b2 != 0 {
          EmitData(b2);
          z := 0;
        }
      }
    }

    /** Termination: the segment written holds a value inside the final interval, and has no final zero byte. */
    method Finish()
      requires Valid()
      modifies this`c, this`sc, this`zc, this`out, this`data
      ensures Written()
      ensures data != [] ==> data[|data| - 1] != 0
      ensures Inside(data, Run(FRESH, coded).iv)
    {
      hide Value, Fits, CodeOf, Pow2, Run, Inside, FinalCode, CarryBits, FirstByte, SecondByte;
      ghost var v, n, c0 := Value(Digits()), |Digits()|, c;
      c := FinalCode(c, a);
      ghost var code := c;
      c := c * Pow2(ct);
      FinalFields(v, n, c0, a, ct, code, c);
      if buffer == -1 {
        assert Digits() == Repeat(0xFF, sc);
        NoFinalCarryIntoNothing(sc, c0, a, ct, code);
      }
      SettleHeldBytes(CarryBits(c) != 0);
      ghost var digits := data + Repeat(0, zc);
      ghost var z := EmitLastBytes(FirstByte(c), SecondByte(c));
      FinalInside(data, z, digits, FirstByte(c), SecondByte(c), v, c0, a, ct, code, CarryBits(c));
    }

    /** Behind a finished segment: a marker, and a new segment with fresh registers and statistics. */
    method Restart(marker: byte)
      requires Written()
      modifies this
      ensures Valid() && coded == [] && before == old(before) + Stuff(old(data)) + [0xFF, marker]
    {
      hide Valid;
      EmitByte(0xFF);
      EmitByte(marker);
      before, data := out, [];
      assert out == old(out) + [0xFF, marker];
      StartSegment();
    }

    method StartSegment()
      requires out == before && data == []
      modifies this
      ensures Valid() && coded == [] && before == old(before)
    {
      hide Fits, CodeOf, Value, Stuff, DigitsOf;
      c, a, sc, zc, ct, buffer, stats := 0, 0x10000, 0, 0, 11, -1, map[];
      coded := [];
      StartRegisters();
    }
  }
}
