/** The zigzag order of DCT coefficients. */
module Zigzag {

  /** One row of the jpeg_natural_order table. */
  function Row(r: nat): seq<nat> {
    match r
    case 0 => [0, 1, 8, 16, 9, 2, 3, 10]
    case 1 => [17, 24, 32, 25, 18, 11, 4, 5]
    case 2 => [12, 19, 26, 33, 40, 48, 41, 34]
    case 3 => [27, 20, 13, 6, 7, 14, 21, 28]
    case 4 => [35, 42, 49, 56, 57, 50, 43, 36]
    case 5 => [29, 22, 15, 23, 30, 37, 44, 51]
    case 6 => [58, 59, 52, 45, 38, 31, 39, 46]
    case _ => [53, 60, 61, 54, 47, 55, 62, 63]
  }

  /** The natural-order position of the k-th element of zigzag order; 63 past the end, for safety in decoders. */
  function NaturalOrder(k: nat): nat {
    if k < 64 then Row(k / 8)[k % 8] else 63
  }

  /** How many steps of the zigzag walk come before each diagonal of an 8 by 8 block. */
  function DiagonalStart(d: nat): nat {
    match d
    case 0 => 0 case 1 => 1 case 2 => 3 case 3 => 6 case 4 => 10 case 5 => 15 case 6 => 21 case 7 => 28
    case 8 => 36 case 9 => 43 case 10 => 49 case 11 => 54 case 12 => 58 case 13 => 61 case _ => 63
  }

  /** Where the walk along the diagonals, up and down in turn, meets a row and column. */
  function Walk(row: nat, col: nat): int {
    var d := row + col;
    DiagonalStart(d) + (if d % 2 == 1 then row else col) - (if d < 8 then 0 else d - 7)
  }

  function ZigzagIndex(n: nat): int {
    Walk(n / 8, n % 8)
  }

  predicate Step(s: seq<nat>, i: nat, k: nat)
    requires i < |s|
  {
    s[i] < 64 && ZigzagIndex(s[i]) == k + i
  }

  /** The positions in a row come one after the other on the walk, starting with step k. */
  predicate Along(s: seq<nat>, k: nat) {
    && |s| == 8
    && Step(s, 0, k) && Step(s, 1, k) && Step(s, 2, k) && Step(s, 3, k)
    && Step(s, 4, k) && Step(s, 5, k) && Step(s, 6, k) && Step(s, 7, k)
  }

  lemma Row0()
    ensures Along(Row(0), 0)
  {
  }

  lemma Row1()
    ensures Along(Row(1), 8)
  {
  }

  lemma Row2()
    ensures Along(Row(2), 16)
  {
  }

  lemma Row3()
    ensures Along(Row(3), 24)
  {
  }

  lemma Row4()
    ensures Along(Row(4), 32)
  {
  }

  lemma Row5()
    ensures Along(Row(5), 40)
  {
  }

  lemma Row6()
    ensures Along(Row(6), 48)
  {
  }

  lemma Row7()
    ensures Along(Row(7), 56)
  {
  }

  /** The table is the diagonal walk, so it is one-to-one. */
  lemma NaturalOrderIsZigzag(k: nat)
    requires k < 64
    ensures NaturalOrder(k) < 64 && ZigzagIndex(NaturalOrder(k)) == k
  {
    hide ZigzagIndex, Row, Step;
    Row0(); Row1(); Row2(); Row3(); Row4(); Row5(); Row6(); Row7();
    AlongAt(Row(k / 8), 8 * (k / 8), k % 8);
    StepAt(Row(k / 8), k % 8, 8 * (k / 8));
  }

  lemma StepAt(s: seq<nat>, i: nat, k: nat)
    requires i < |s| && Step(s, i, k)
    ensures s[i] < 64 && ZigzagIndex(s[i]) == k + i
  {
  }

  lemma AlongAt(s: seq<nat>, k: nat, i: nat)
    requires Along(s, k) && i < 8
    ensures Step(s, i, k)
  {
    hide Step;
  }

  /** The positions of the first k steps, as a set. */
  function Visited(k: nat): (r: set<nat>)
    requires k <= 64
  {
    if k == 0 then {} else Visited(k - 1) + {NaturalOrder(k - 1)}
  }

  lemma {:induction false} VisitedStep(k: nat, n: nat)
    requires k <= 64
    ensures n in Visited(k) <==> exists j :: 0 <= j < k && NaturalOrder(j) == n
  {
    hide NaturalOrder;
    if k > 0 {
      VisitedStep(k - 1, n);
      if n == NaturalOrder(k - 1) {
        assert 0 <= k - 1 < k;
      }
    }
  }

  lemma {:induction false} VisitedSize(k: nat)
    requires k <= 64
    ensures |Visited(k)| == k
    ensures forall n :: n in Visited(k) ==> n < 64
  {
    hide NaturalOrder, ZigzagIndex;
    if k > 0 {
      VisitedSize(k - 1);
      NaturalOrderIsZigzag(k - 1);
      VisitedStep(k - 1, NaturalOrder(k - 1));
      if j: nat :| j < k - 1 && NaturalOrder(j) == NaturalOrder(k - 1) {
        NaturalOrderIsZigzag(j);
        assert false;
      }
    }
  }

  lemma {:induction false} BelowSize(n: nat, s: set<nat>)
    requires forall x :: x in s ==> x < n
    ensures |s| <= n
  {
    if n > 0 {
      BelowSize(n - 1, s - {n - 1});
    } else {
      assert s == {};
    }
  }

  /** Every position of a block has its place in zigzag order. */
  lemma ZigzagOf(n: nat) returns (k: nat)
    requires n < 64
    ensures k < 64 && NaturalOrder(k) == n
  {
    hide NaturalOrder;
    VisitedSize(64);
    if n !in Visited(64) {
      var s := Visited(64) + {n};
      assert |s| == 65;
      BelowSize(64, s);
      assert false;
    }
    VisitedStep(64, n);
    k :| 0 <= k < 64 && NaturalOrder(k) == n;
  }
}
