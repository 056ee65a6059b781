/** The probability estimation state machine of Table D.2 in Rec. ITU-T T.81, packed one state per integer. */
module ProbabilityTable {
  import opened Powers

  const STATES: nat := 114

  /** State 113 is the fixed probability estimate of one half. */
  const FIXED_STATE := 113

  /** One packed table entry. */
  type State = v: nat | StateOk(v) witness 0x10000

  predicate StateOk(v: nat) {
    && 1 <= v / 0x10000 < 0x8000
    && v % 0x80 < STATES
    && (v / 0x100) % 0x100 < STATES
  }

  /** Packs a Qe value, the next state after an LPS, the next state after an MPS, and the MPS switch flag. */
  function V(qe: nat, nextLps: nat, nextMps: nat, switchMps: nat): (v: State)
    requires 1 <= qe < 0x8000 && nextLps < STATES && nextMps < STATES && switchMps < 2
  {
    var v := qe * 0x10000 + nextMps * 0x100 + switchMps * 0x80 + nextLps;
    PackedFields(v, qe, nextLps, nextMps, switchMps);
    v
  }

  lemma PackedFields(v: nat, qe: nat, nextLps: nat, nextMps: nat, switchMps: nat)
    requires nextLps < 0x80 && nextMps < 0x100 && switchMps < 2
    requires v == qe * 0x10000 + nextMps * 0x100 + switchMps * 0x80 + nextLps
    ensures v / 0x10000 == qe && (v / 0x100) % 0x100 == nextMps
    ensures v % 0x80 == nextLps && (v / 0x80) % 2 == switchMps && v % 0x100 == switchMps * 0x80 + nextLps
  {
    DivModUnique(v, qe, nextMps * 0x100 + switchMps * 0x80 + nextLps, 0x10000);
    DivModUnique(v, qe * 0x100 + nextMps, switchMps * 0x80 + nextLps, 0x100);
    DivModUnique(qe * 0x100 + nextMps, qe, nextMps, 0x100);
    DivModUnique(v, qe * 0x200 + nextMps * 2 + switchMps, nextLps, 0x80);
    DivModUnique(qe * 0x200 + nextMps * 2 + switchMps, qe * 0x100 + nextMps, switchMps, 2);
  }

  const ARITAB: seq<State> := [
    V(0x5a1d, 1, 1, 1), V(0x2586, 14, 2, 0), V(0x1114, 16, 3, 0), V(0x080b, 18, 4, 0),
    V(0x03d8, 20, 5, 0), V(0x01da, 23, 6, 0), V(0x00e5, 25, 7, 0), V(0x006f, 28, 8, 0),
    V(0x0036, 30, 9, 0), V(0x001a, 33, 10, 0), V(0x000d, 35, 11, 0), V(0x0006, 9, 12, 0),
    V(0x0003, 10, 13, 0), V(0x0001, 12, 13, 0), V(0x5a7f, 15, 15, 1), V(0x3f25, 36, 16, 0),
    V(0x2cf2, 38, 17, 0), V(0x207c, 39, 18, 0), V(0x17b9, 40, 19, 0), V(0x1182, 42, 20, 0),
    V(0x0cef, 43, 21, 0), V(0x09a1, 45, 22, 0), V(0x072f, 46, 23, 0), V(0x055c, 48, 24, 0),
    V(0x0406, 49, 25, 0), V(0x0303, 51, 26, 0), V(0x0240, 52, 27, 0), V(0x01b1, 54, 28, 0),
    V(0x0144, 56, 29, 0), V(0x00f5, 57, 30, 0), V(0x00b7, 59, 31, 0), V(0x008a, 60, 32, 0),
    V(0x0068, 62, 33, 0), V(0x004e, 63, 34, 0), V(0x003b, 32, 35, 0), V(0x002c, 33, 9, 0),
    V(0x5ae1, 37, 37, 1), V(0x484c, 64, 38, 0), V(0x3a0d, 65, 39, 0), V(0x2ef1, 67, 40, 0),
    V(0x261f, 68, 41, 0), V(0x1f33, 69, 42, 0), V(0x19a8, 70, 43, 0), V(0x1518, 72, 44, 0),
    V(0x1177, 73, 45, 0), V(0x0e74, 74, 46, 0), V(0x0bfb, 75, 47, 0), V(0x09f8, 77, 48, 0),
    V(0x0861, 78, 49, 0), V(0x0706, 79, 50, 0), V(0x05cd, 48, 51, 0), V(0x04de, 50, 52, 0),
    V(0x040f, 50, 53, 0), V(0x0363, 51, 54, 0), V(0x02d4, 52, 55, 0), V(0x025c, 53, 56, 0),
    V(0x01f8, 54, 57, 0), V(0x01a4, 55, 58, 0), V(0x0160, 56, 59, 0), V(0x0125, 57, 60, 0),
    V(0x00f6, 58, 61, 0), V(0x00cb, 59, 62, 0), V(0x00ab, 61, 63, 0), V(0x008f, 61, 32, 0),
    V(0x5b12, 65, 65, 1), V(0x4d04, 80, 66, 0), V(0x412c, 81, 67, 0), V(0x37d8, 82, 68, 0),
    V(0x2fe8, 83, 69, 0), V(0x293c, 84, 70, 0), V(0x2379, 86, 71, 0), V(0x1edf, 87, 72, 0),
    V(0x1aa9, 87, 73, 0), V(0x174e, 72, 74, 0), V(0x1424, 72, 75, 0), V(0x119c, 74, 76, 0),
    V(0x0f6b, 74, 77, 0), V(0x0d51, 75, 78, 0), V(0x0bb6, 77, 79, 0), V(0x0a40, 77, 48, 0),
    V(0x5832, 80, 81, 1), V(0x4d1c, 88, 82, 0), V(0x438e, 89, 83, 0), V(0x3bdd, 90, 84, 0),
    V(0x34ee, 91, 85, 0), V(0x2eae, 92, 86, 0), V(0x299a, 93, 87, 0), V(0x2516, 86, 71, 0),
    V(0x5570, 88, 89, 1), V(0x4ca9, 95, 90, 0), V(0x44d9, 96, 91, 0), V(0x3e22, 97, 92, 0),
    V(0x3824, 99, 93, 0), V(0x32b4, 99, 94, 0), V(0x2e17, 93, 86, 0), V(0x56a8, 95, 96, 1),
    V(0x4f46, 101, 97, 0), V(0x47e5, 102, 98, 0), V(0x41cf, 103, 99, 0), V(0x3c3d, 104, 100, 0),
    V(0x375e, 99, 93, 0), V(0x5231, 105, 102, 0), V(0x4c0f, 106, 103, 0), V(0x4639, 107, 104, 0),
    V(0x415e, 103, 99, 0), V(0x5627, 105, 106, 1), V(0x50e7, 108, 107, 0), V(0x4b85, 109, 103, 0),
    V(0x5597, 110, 109, 0), V(0x504f, 111, 107, 0), V(0x5a10, 110, 111, 1), V(0x5522, 112, 109, 0),
    V(0x59eb, 112, 111, 1), V(0x5a1d, 113, 113, 0)
  ]

  lemma TableSize()
    ensures |ARITAB| == STATES
  {
  }

  /** A statistics byte: the more probable symbol in the top bit, the state index in the other seven. */
  type StatByte = sv: nat | sv < 0x100 && sv % 0x80 < STATES

  function Mps(sv: StatByte): Bit {
    sv / 0x80
  }

  function Entry(sv: StatByte): State {
    TableSize();
    ARITAB[sv % 0x80]
  }

  function Qe(sv: StatByte): (qe: nat)
    ensures 1 <= qe < 0x8000
  {
    Entry(sv) / 0x10000
  }

  /** (sv & 0x80) ^ next: moves to the next state, exchanging the symbols when next carries the switch flag. */
  function Advance(sv: StatByte, next: nat): (r: StatByte)
    requires next < 0x100 && next % 0x80 < STATES
  {
    var mps := (Mps(sv) + next / 0x80) % 2;
    DivModUnique(mps * 0x80 + next % 0x80, mps, next % 0x80, 0x80);
    mps * 0x80 + next % 0x80
  }

  function AfterLps(sv: StatByte): StatByte {
    hide Entry;
    var e := Entry(sv);
    DivModUnique(e, (e / 0x100) * 2 + (e % 0x100) / 0x80, (e % 0x100) % 0x80, 0x80);
    Advance(sv, e % 0x100)
  }

  function AfterMps(sv: StatByte): StatByte {
    hide Entry;
    var e := Entry(sv);
    assert StateOk(e);
    Advance(sv, (e / 0x100) % 0x100)
  }

  /** The state used for equiprobable decisions never adapts. */
  lemma FixedStateStays()
    ensures AfterLps(FIXED_STATE) == FIXED_STATE && AfterMps(FIXED_STATE) == FIXED_STATE
  {
    var e := Entry(FIXED_STATE);
    assert e == V(0x5a1d, 113, 113, 0);
    PackedFields(e, 0x5a1d, 113, 113, 0);
    hide Entry, V;
  }
}
