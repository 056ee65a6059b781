/** The arithmetic decoder of jdarith.c: a code register with a floating cut point, fed one data byte at a time. */
module ArithDecoder {
  import opened Powers
  import opened ByteStream
  import opened ProbabilityTable
  import opened CodeInterval

  /** The registers hold n bytes of the code value, less the base of the interval. */
  predicate Tracks(data: seq<byte>, iv: Interval, n: nat, c: nat, ct: nat) {
    && 8 * n == 16 + iv.t + ct
    && c + iv.low * Pow2(ct) == Prefix(data, n)
  }

  lemma StartTracking(data: seq<byte>, c: nat)
    requires c == Prefix(data, 2)
    ensures Tracks(data, START, 2, c, 0)
  {
  }

  lemma PrefixStart(data: seq<byte>, n: nat)
    ensures Prefix(data, n + 1) == Prefix(data, n) * 256 + Digit(data, n)
    ensures Prefix(data, 0) == 0
  {
  }

  lemma ShiftTracking(data: seq<byte>, iv: Interval, n: nat, c: nat, ct: nat)
    requires ct > 0 && Tracks(data, iv, n, c, ct)
    ensures Tracks(data, Interval(2 * iv.low, 2 * iv.a, iv.t + 1), n, c, ct - 1)
  {
    Regroup(iv.low, Pow2(ct - 1));
  }

  lemma ReadTracking(data: seq<byte>, iv: Interval, n: nat, c: nat)
    requires Tracks(data, iv, n, c, 0)
    ensures Tracks(data, Interval(2 * iv.low, 2 * iv.a, iv.t + 1), n + 1, c * 256 + Digit(data, n), 7)
  {
    assert Pow2(7) == 128;
  }

  /** Where c stands against the cut tells which part of the interval the code value is in. */
  lemma CutDecides(data: seq<byte>, iv: Interval, n: nat, c: nat, ct: nat, sv: StatByte, bit: Bit)
    requires Normal(iv) && ct <= 7 && Tracks(data, iv, n, c, ct)
    requires Inside(data, Part(iv, sv, bit))
    ensures var p, cut := Part(iv, sv, bit), (iv.a - Qe(sv)) * Pow2(ct);
      && (c >= cut <==> Upper(iv.a, sv, bit))
      && Tracks(data, p, n, if c >= cut then c - cut else c, ct)
  {
    hide Pow2, Prefix, Qe;
    assert BytesFor(iv.t) == n;
    var p, unit := Part(iv, sv, bit), Pow2(ct);
    assert p.low * unit <= Prefix(data, n) < (p.low + p.a) * unit;
    assert (iv.low + (iv.a - Qe(sv))) * unit == iv.low * unit + (iv.a - Qe(sv)) * unit;
  }

  /** A segment in the file: its bytes without stuffing, and the file from its end on. */
  datatype Segment = Segment(data: seq<byte>, tail: seq<byte>, fill: nat)

  class Decoder {
    var c: nat              // offset of the code value in the interval, and unused bits below the cut point
    var a: nat              // size of the interval
    var ct: int             // position of the cut point; negative while the first two bytes are loaded
    var stats: Stats
    const src: seq<byte>
    var pos: nat            // next byte to read
    var unreadMarker: nat   // the marker that ended the data, 0 if none yet

    ghost var data: seq<byte>        // the segment's bytes without stuffing
    ghost var tail: seq<byte>        // the file from the end of the segment on
    ghost var fill: nat
    ghost var taken: nat             // how many data bytes have been read, counting the zeros past the end
    ghost var iv: Interval           // the interval of the registers
    ghost var state: Coded           // the exact state before the next decision
    ghost var pending: seq<Decision> // the decisions still to come

    ghost predicate SourceOk()
      reads this`pos, this`unreadMarker, this`data, this`tail, this`fill, this`taken
    {
      && Terminator(tail, fill)
      && if unreadMarker == 0 then taken <= |data| && pos <= |src| && src[pos..] == Stuff(data[taken..]) + tail
         else taken >= |data| && unreadMarker == tail[fill] && pos <= |src| && src[pos..] == tail[fill + 1..]
    }

    ghost function Source(): Segment
      reads this`data, this`tail, this`fill
    {
      Segment(data, tail, fill)
    }

    ghost predicate Loading()
      reads this`c, this`a, this`ct, this`data, this`taken, this`iv
    {
      && a == 0 && iv == START
      && ((ct == -16 && taken == 0 && c == 0) || (ct == -8 && taken == 1 && c == Prefix(data, 1)))
    }

    ghost predicate Running()
      reads this`c, this`a, this`ct, this`data, this`taken, this`iv
    {
      && 1 <= a <= 0x10000 && a == iv.a
      && 0 <= ct <= 7
      && Tracks(data, iv, taken, c, ct)
    }

    ghost predicate Registers()
      reads this`c, this`a, this`ct, this`data, this`taken, this`iv
    {
      Loading() || Running()
    }

    ghost predicate Valid()
      reads this
    {
      && SourceOk() && Registers()
      && 1 <= iv.a <= 0x10000 && Renormalize(iv) == state.iv
      && Normal(state.iv) && state.stats == stats
      && Inside(data, Run(state, pending).iv)
    }

    method GetByte() returns (b: byte)
      requires pos < |src|
      modifies this`pos
      ensures b == old(src[pos]) && pos == old(pos) + 1
    {
      b := src[pos];
      pos := pos + 1;
    }

    /** Reads on to the first byte that is not 0xFF: k places behind the 0xFF just read. */
    method SkipFill(ghost rest: seq<byte>, ghost k: nat) returns (d: byte)
      requires 1 <= pos <= |src| && rest == src[pos - 1..]
      requires 1 <= k < |rest| && rest[k] != 0xFF
      requires forall i :: 1 <= i < k ==> rest[i] == 0xFF
      modifies this`pos
      ensures d == rest[k] && pos == old(pos) + k && pos <= |src|
      ensures src[pos..] == rest[k + 1..]
    {
      ghost var p := pos;
      d := GetByte();
      assert d == rest[1];
      while d == 0xFF
        invariant 1 <= pos - p <= k && pos <= |src|
        invariant d == rest[pos - p]
        invariant d != 0xFF ==> pos - p == k
        decreases |src| - pos
      {
        d := GetByte();
        assert d == rest[pos - p];
      }
    }

    /** The next data byte: stuffing removed, extra 0xFF bytes swallowed, zeros once a marker is met. */
    method NextDataByte() returns (d: byte)
      requires SourceOk()
      modifies this`pos, this`unreadMarker, this`taken
      ensures SourceOk() && taken == old(taken) + 1
      ensures d == Digit(data, old(taken))
    {
      hide Stuff, StuffByte, Terminator;
      if unreadMarker != 0 {
        d := 0;
      } else {
        ghost var k := ReadAhead(src[pos..], data, taken, tail, fill);
        ghost var rest := src[pos..];
        d := GetByte();
        if d == 0xFF {
          d := SkipFill(rest, k);
          if d == 0 {
            d := 0xFF;
          } else {
            unreadMarker := d;
            d := 0;
          }
        }
      }
      taken := taken + 1;
    }

    /** Opens a segment found at the start of the source, before its first two bytes are loaded. */
    constructor (src: seq<byte>, ghost data: seq<byte>, ghost tail: seq<byte>, ghost fill: nat, ghost ds: seq<Decision>)
      requires Terminator(tail, fill) && src == Stuff(data) + tail
      requires Inside(data, Run(FRESH, ds).iv)
      ensures Valid() && fresh(this)
      ensures pending == ds && state == FRESH && Source() == Segment(data, tail, fill)
    {
      c, a, ct, stats := 0, 0, -16, map[];
      this.src, pos, unreadMarker := src, 0, 0;
      this.data, this.tail, this.fill, taken := data, tail, fill, 0;
      iv, state, pending := START, FRESH, ds;
      new;
      hide Inside, Stuff, Run;
      assert data[0..] == data && src[0..] == src;
    }

    lemma SourceIsOk()
      requires Valid()
      ensures SourceOk()
    {
    }

    /** next_marker: skips whatever data is left, up to the marker behind it. */
    method NextMarker()
      requires SourceOk() && unreadMarker == 0
      modifies this`pos, this`unreadMarker, this`taken
      ensures SourceOk() && unreadMarker == tail[fill]
    {
      hide Stuff, StuffByte, Terminator;
      TerminatorCode();
      while unreadMarker == 0
        invariant SourceOk() && 0 < tail[fill] && (unreadMarker != 0 ==> unreadMarker == tail[fill])
        decreases unreadMarker == 0, |src| - pos
      {
        ghost var k := ReadAhead(src[pos..], data, taken, tail, fill);
        ghost var rest := src[pos..];
        var c := GetByte();
        if c == 0xFF {
          c := SkipFill(rest, k);
          if c != 0 {
            unreadMarker := c;
          }
        }
        if unreadMarker == 0 {
          taken := taken + 1;
        }
      }
    }

    lemma TerminatorCode()
      requires Terminator(tail, fill)
      ensures fill < |tail| && tail[fill] > 0
    {
    }

    /** Passes the restart marker of the expected number, and opens the segment behind it like the first one. */
    method Restart(num: nat, ghost next: Segment, ghost ds: seq<Decision>)
      requires SourceOk() && num < 8
      requires fill < |tail| && tail[fill] == 0xD0 + num && tail[fill + 1..] == Stuff(next.data) + next.tail
      requires Terminator(next.tail, next.fill) && Inside(next.data, Run(FRESH, ds).iv)
      modifies this
      ensures Valid() && pending == ds && state == FRESH && Source() == next
    {
      hide Inside, Stuff, Run, Terminator, Valid;
      if unreadMarker == 0 {
        NextMarker();
      }
      if unreadMarker == 0xD0 + num {
        unreadMarker := 0;
      } else {
        assert false;
      }
      OpenSegment(next, ds);
    }

    method OpenSegment(ghost next: Segment, ghost ds: seq<Decision>)
      requires unreadMarker == 0 && pos <= |src| && src[pos..] == Stuff(next.data) + next.tail
      requires Terminator(next.tail, next.fill) && Inside(next.data, Run(FRESH, ds).iv)
      modifies this
      ensures Valid() && pending == ds && state == FRESH && Source() == next
    {
      hide Inside, Stuff, Run, Terminator;
      c, a, ct, stats := 0, 0, -16, map[];
      data, tail, fill, taken := next.data, next.tail, next.fill, 0;
      iv, state, pending := START, FRESH, ds;
      assert data[0..] == data;
    }

    /** One step of renormalization; a new data byte comes in when the cut point reaches the end of c. */
    method Shift()
      requires SourceOk() && Registers() && a < 0x8000
      modifies this`c, this`a, this`ct, this`pos, this`unreadMarker, this`taken, this`iv
      ensures SourceOk() && Registers()
      ensures old(Loading()) ==> iv == START && (Loading() ==> ct == -8 && old(ct) == -16)
      ensures old(Running()) ==>
        Running() && iv == Interval(2 * old(iv).low, 2 * old(iv).a, old(iv).t + 1)
    {
      hide Tracks, Prefix, Digit;
      ghost var before := taken;
      PrefixStart(data, before);
      ct := ct - 1;
      if ct < 0 {
        if old(Running()) {
          ReadTracking(data, iv, before, c);
        }
        var d := NextDataByte();
        c := c * 0x100 + d;
        ct := ct + 8;
        if ct < 0 {
          ct := ct + 1;
          if ct == 0 {
            StartTracking(data, c);
            a := 0x8000;
          }
        }
      } else {
        ShiftTracking(data, iv, before, c, ct + 1);
      }
      a := 2 * a;
      if old(Running()) {
        iv := Interval(2 * iv.low, 2 * iv.a, iv.t + 1);
      }
    }

    /** Renormalization and data input: brings the registers to the exact state. */
    method LoadAndRenormalize()
      requires Valid()
      modifies this`c, this`a, this`ct, this`pos, this`unreadMarker, this`taken, this`iv
      ensures SourceOk() && Running() && iv == state.iv
    {
      while a < 0x8000
        invariant SourceOk() && Registers()
        invariant 1 <= iv.a <= 0x10000 && Renormalize(iv) == state.iv
        decreases if Loading() then 0 - ct else 0, 0x10000 - a
      {
        hide Tracks, Prefix;
        Shift();
      }
    }

    /** Decodes one binary decision under the statistics of a bin. */
    method Decode(bin: Bin) returns (val: Bit)
      requires Valid()
      requires pending != [] && pending[0].bin == bin
      modifies this
      ensures Valid()
      ensures val == old(pending)[0].bit && pending == old(pending)[1..]
      ensures Normal(old(state).iv) && state == Step(old(state), old(pending)[0])
      ensures Source() == old(Source())
    {
      hide Tracks, Inside, Run, Part, Renormalize, Step, Terminator, Stuff, Digit;
      NextPart();
      LoadAndRenormalize();
      val := Select(bin, pending[0].bit);
      RunHead();
      state := Step(state, pending[0]);
      pending := pending[1..];
      SelectedState(old(state), old(pending)[0]);
    }

    lemma SelectedState(s: Coded, d: Decision)
      requires Normal(s.iv)
      ensures var p := Part(s.iv, Stat(s.stats, d.bin), d.bit);
        1 <= p.a <= 0x10000 && Renormalize(p) == Step(s, d).iv
    {
    }

    /** Compares the code value with the cut between the two parts, and adapts the statistics. */
    method Select(bin: Bin, ghost bit: Bit) returns (val: Bit)
      requires Running() && Normal(iv)
      requires Inside(data, Part(iv, Stat(stats, bin), bit))
      modifies this`c, this`a, this`iv, this`stats
      ensures Running() && val == bit
      ensures iv == Part(old(iv), Stat(old(stats), bin), bit)
      ensures stats == Step(Coded(old(iv), old(stats)), Decision(bin, bit)).stats
    {
      hide Tracks, Inside, Qe, AfterLps, AfterMps, Pow2;
      var sv := Stat(stats, bin);
      CutDecides(data, iv, taken, c, ct, sv, bit);
      var qe := Qe(sv);
      a := a - qe;
      var temp := a * Pow2(ct);
      iv := Part(iv, sv, bit);
      val := Mps(sv);
      if c >= temp {
        c := c - temp;
        if a < qe {
          stats := stats[bin := AfterMps(sv)];
        } else {
          stats := stats[bin := AfterLps(sv)];
          val := 1 - val;
        }
        a := qe;
      } else if a < 0x8000 {
        if a < qe {
          stats := stats[bin := AfterLps(sv)];
          val := 1 - val;
        } else {
          stats := stats[bin := AfterMps(sv)];
        }
      }
    }

    lemma RunHead()
      requires pending != [] && Normal(state.iv)
      ensures Run(state, pending) == Run(Step(state, pending[0]), pending[1..])
    {
    }

    /** The code value lies in the part of the interval that the next decision selects. */
    lemma NextPart()
      requires pending != [] && Normal(state.iv)
      requires Inside(data, Run(state, pending).iv)
      ensures Inside(data, Part(state.iv, Stat(state.stats, pending[0].bin), pending[0].bit))
    {
      hide Inside, Part;
      NestedRun(data, Step(state, pending[0]), pending[1..]);
      StepInside(data, state, pending[0]);
    }
  }
}
