/** The bit masks of jcphuff.c that tell which coefficients of a band are not zero, and the walk over their bits. */
module BandMask {
  import opened Powers

  /** Bit k of the mask is set when the k-th flag is. */
  function Mask(flags: seq<bool>): nat {
    if flags == [] then 0 else (if flags[0] then 1 else 0) + 2 * Mask(flags[1..])
  }

  lemma {:induction false} MaskSnoc(flags: seq<bool>, f: bool)
    ensures Mask(flags + [f]) == Mask(flags) + if f then Pow2(|flags|) else 0
  {
    if flags != [] {
      MaskSnoc(flags[1..], f);
      assert (flags + [f])[1..] == flags[1..] + [f];
    }
  }

  /** A mask of up to 64 flags fits a 64-bit word. */
  lemma {:induction false} MaskBound(flags: seq<bool>)
    ensures Mask(flags) < Pow2(|flags|)
  {
    if flags != [] {
      MaskBound(flags[1..]);
    }
  }

  lemma {:induction false} MaskZero(flags: seq<bool>)
    ensures Mask(flags) == 0 <==> forall i :: 0 <= i < |flags| ==> !flags[i]
  {
    if flags != [] {
      MaskZero(flags[1..]);
      if Mask(flags) == 0 {
        forall i | 0 <= i < |flags|
          ensures !flags[i]
        {
          if i > 0 {
            assert !flags[1..][i - 1];
          }
        }
      } else {
        assert flags[0] || exists i :: 0 <= i < |flags[1..]| && flags[1..][i];
      }
    }
  }

  lemma MaskHead(flags: seq<bool>, pos: nat)
    requires pos < |flags|
    ensures Mask(flags[pos..]) % 2 == 1 <==> flags[pos]
    ensures Mask(flags[pos..]) / 2 == Mask(flags[pos + 1..])
  {
    assert flags[pos..][1..] == flags[pos + 1..];
  }

  /** count_zeroes: how many clear bits come before the next set one, which moves to the bottom. */
  method CountZeroes(x0: nat, ghost flags: seq<bool>, ghost pos: nat) returns (result: nat, x: nat)
    requires pos <= |flags| && x0 == Mask(flags[pos..]) && x0 != 0
    ensures pos + result < |flags| && flags[pos + result]
    ensures forall i :: pos <= i < pos + result ==> !flags[i]
    ensures x == Mask(flags[pos + result..])
  {
    hide Mask;
    result, x := 0, x0;
    NotAtEnd(flags, pos);
    MaskHead(flags, pos);
    while x % 2 == 0
      invariant pos + result < |flags| && x == Mask(flags[pos + result..]) && x != 0
      invariant x % 2 == 1 <==> flags[pos + result]
      invariant forall i :: pos <= i < pos + result ==> !flags[i]
      decreases |flags| - result
    {
      MaskHead(flags, pos + result);
      result := result + 1;
      x := x / 2;
      NotAtEnd(flags, pos + result);
      MaskHead(flags, pos + result);
    }
  }

  lemma NotAtEnd(flags: seq<bool>, pos: nat)
    requires pos <= |flags| && Mask(flags[pos..]) != 0
    ensures pos < |flags|
  {
  }

  /** Shifting n flags out. */
  lemma {:induction false} MaskShift(flags: seq<bool>, pos: nat, n: nat)
    requires pos + n <= |flags|
    ensures Mask(flags[pos..]) / Pow2(n) == Mask(flags[pos + n..])
    decreases n
  {
    hide Mask;
    if n > 0 {
      MaskHead(flags, pos);
      MaskShift(flags, pos + 1, n - 1);
      HalveFirst(Mask(flags[pos..]), Pow2(n - 1));
    }
  }

  lemma HalveFirst(x: nat, p: nat)
    requires p > 0
    ensures x / 2 / p == x / (2 * p)
  {
    DivideTwice(x, 2, p);
  }
}
